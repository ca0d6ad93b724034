/**
 * The operator's answer to "Clean ...? [y/n]": the line read from standard input, with
 * Rust's `str::trim` applied, must be exactly `y`, `Y` or `yes`.
 */
module Answers {

  /** `char::is_whitespace`: the characters with the Unicode White_Space property. */
  predicate IsWhitespace(c: char)
  {
    var u := c as int;
    || 0x09 <= u <= 0x0D
    || u == 0x20
    || u == 0x85
    || u == 0xA0
    || u == 0x1680
    || 0x2000 <= u <= 0x200A
    || u == 0x2028
    || u == 0x2029
    || u == 0x202F
    || u == 0x205F
    || u == 0x3000
  }

  predicate AllWhitespace(s: string)
  {
    forall i :: 0 <= i < |s| ==> IsWhitespace(s[i])
  }

  /** `trim_start`: the suffix left after every leading whitespace character is removed. */
  function TrimStart(s: string): (r: string)
    ensures |r| <= |s|
  {
    if s != [] && IsWhitespace(s[0]) then TrimStart(s[1..]) else s
  }

  /** `trim_end`: the prefix left after every trailing whitespace character is removed. */
  function TrimEnd(s: string): (r: string)
    ensures |r| <= |s|
  {
    if s != [] && IsWhitespace(s[|s| - 1]) then TrimEnd(s[..|s| - 1]) else s
  }

  /** `trim_start` removes exactly the leading whitespace: what it drops is whitespace, and what it keeps does not start with any. */
  lemma {:induction false} TrimStartShape(s: string)
    ensures var r := TrimStart(s);
      && r == s[|s| - |r|..]
      && AllWhitespace(s[..|s| - |r|])
      && (r == [] || !IsWhitespace(r[0]))
  {
    if s != [] && IsWhitespace(s[0]) {
      TrimStartShape(s[1..]);
      var r := TrimStart(s);
      assert s[1..][..|s| - 1 - |r|] == s[1..|s| - |r|];
      assert forall i :: 1 <= i < |s| - |r| ==> s[i] == s[1..][..|s| - 1 - |r|][i - 1];
    }
  }

  /** `trim_end` removes exactly the trailing whitespace. */
  lemma {:induction false} TrimEndShape(s: string)
    ensures var r := TrimEnd(s);
      && r == s[..|r|]
      && AllWhitespace(s[|r|..])
      && (r == [] || !IsWhitespace(r[|r| - 1]))
  {
    if s != [] && IsWhitespace(s[|s| - 1]) {
      var t := s[..|s| - 1];
      TrimEndShape(t);
      var r := TrimEnd(s);
      assert forall i :: |r| <= i < |s| - 1 ==> s[i] == t[|r|..][i - |r|];
    }
  }

  /** How many whitespace characters lead `s`. */
  function LeadingWhitespace(s: string): nat
  {
    |s| - |TrimStart(s)|
  }

  /** `str::trim`: `trim_start` followed by `trim_end`. */
  function Trim(s: string): (r: string)
    ensures LeadingWhitespace(s) + |r| <= |s|
  {
    TrimEnd(TrimStart(s))
  }

  /**
   * `str::trim` keeps the middle of `s`: the text before it and the text after it are
   * whitespace, and it neither starts nor ends with whitespace.
   */
  lemma TrimShape(s: string)
    ensures var k := LeadingWhitespace(s);
      var r := Trim(s);
      && r == s[k..k + |r|]
      && AllWhitespace(s[..k])
      && AllWhitespace(s[k + |r|..])
      && (r == [] || (!IsWhitespace(r[0]) && !IsWhitespace(r[|r| - 1])))
  {
    var t := TrimStart(s);
    var r := TrimEnd(t);
    var k := LeadingWhitespace(s);
    TrimStartShape(s);
    TrimEndShape(t);
    assert s[k + |r|..] == t[|r|..];
    assert r == s[k..k + |r|];
  }

  /** The answers that confirm a cleanup. */
  predicate IsYesWord(w: string)
  {
    w == "y" || w == "Y" || w == "yes"
  }

  /** `matches!(user_answer.trim(), "y" | "Y" | "yes")`. */
  predicate Accepted(answer: string)
  {
    IsYesWord(Trim(answer))
  }

  lemma {:induction false} TrimStartPadded(lead: string, rest: string)
    requires AllWhitespace(lead) && (rest == [] || !IsWhitespace(rest[0]))
    ensures TrimStart(lead + rest) == rest
  {
    if lead == [] {
      assert lead + rest == rest;
    } else {
      assert (lead + rest)[1..] == lead[1..] + rest;
      TrimStartPadded(lead[1..], rest);
    }
  }

  lemma {:induction false} TrimEndPadded(word: string, trail: string)
    requires AllWhitespace(trail) && (word == [] || !IsWhitespace(word[|word| - 1]))
    ensures TrimEnd(word + trail) == word
  {
    if trail == [] {
      assert word + trail == word;
    } else {
      var shorter := trail[..|trail| - 1];
      assert (word + trail)[..|word + trail| - 1] == word + shorter;
      TrimEndPadded(word, shorter);
    }
  }

  /** Surrounding whitespace of any kind and length is ignored. */
  lemma TrimPadded(lead: string, word: string, trail: string)
    requires AllWhitespace(lead) && AllWhitespace(trail)
    requires word == [] || (!IsWhitespace(word[0]) && !IsWhitespace(word[|word| - 1]))
    ensures Trim(lead + word + trail) == word
  {
    if word == [] {
      assert lead + word + trail == lead + trail;
      assert AllWhitespace(lead + trail);
      TrimStartAllWhitespace(lead + trail);
      TrimEndPadded(word, []);
    } else {
      assert lead + word + trail == lead + (word + trail);
      TrimStartPadded(lead, word + trail);
      TrimEndPadded(word, trail);
    }
  }

  lemma {:induction false} TrimStartAllWhitespace(s: string)
    requires AllWhitespace(s)
    ensures TrimStart(s) == []
  {
    if s != [] {
      TrimStartAllWhitespace(s[1..]);
    }
  }

  /**
   * An answer is accepted exactly when it is `y`, `Y` or `yes` surrounded by whitespace
   * only: any other letters, case or spelling decline.
   */
  lemma AcceptedIff(lead: string, word: string, trail: string)
    requires AllWhitespace(lead) && AllWhitespace(trail)
    requires word == [] || (!IsWhitespace(word[0]) && !IsWhitespace(word[|word| - 1]))
    ensures Accepted(lead + word + trail) <==> IsYesWord(word)
  {
    TrimPadded(lead, word, trail);
  }

  /** Every accepted answer has that shape: whitespace, a yes-word, whitespace. */
  lemma AcceptedShape(answer: string)
    requires Accepted(answer)
    ensures var k := LeadingWhitespace(answer);
      var w := Trim(answer);
      && answer == answer[..k] + w + answer[k + |w|..]
      && AllWhitespace(answer[..k]) && AllWhitespace(answer[k + |w|..])
      && IsYesWord(w)
  {
    var k := LeadingWhitespace(answer);
    var w := Trim(answer);
    TrimShape(answer);
    assert answer == answer[..k] + answer[k..k + |w|] + answer[k + |w|..];
  }

  /** Whitespace around a yes-word is ignored. */
  lemma AcceptedExample()
    ensures Accepted("  yes\t")
  {
    AcceptedIff("  ", "yes", "\t");
    assert "  yes\t" == "  " + "yes" + "\t";
  }

  /** The match is case-sensitive and whole-word. */
  lemma DeclinedExamples()
    ensures !Accepted("Yes") && !Accepted("y es")
  {
    AcceptedIff("", "Yes", "");
    assert "Yes" == "" + "Yes" + "";
    AcceptedIff("", "y es", "");
    assert "y es" == "" + "y es" + "";
  }

}
