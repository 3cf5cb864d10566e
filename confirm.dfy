/**
 * The operator's confirmation: the answer line is stripped of surrounding
 * whitespace, lower-cased, and accepted only as "y" or "yes".
 */
module Confirm {

  /** The characters Python's `str.strip()` removes by default. */
  predicate IsSpace(c: char) {
    || '\U{0009}' <= c <= '\U{000D}'
    || '\U{001C}' <= c <= '\U{0020}'
    || c == '\U{0085}' || c == '\U{00A0}' || c == '\U{1680}'
    || '\U{2000}' <= c <= '\U{200A}'
    || c == '\U{2028}' || c == '\U{2029}' || c == '\U{202F}' || c == '\U{205F}' || c == '\U{3000}'
  }

  /** The number of whitespace characters at the start of `s`. */
  function LeadingSpaces(s: string): (k: nat)
    ensures k <= |s|
    ensures forall i :: 0 <= i < k ==> IsSpace(s[i])
    ensures k < |s| ==> !IsSpace(s[k])
  {
    if s == [] || !IsSpace(s[0]) then 0 else 1 + LeadingSpaces(s[1..])
  }

  /** The number of whitespace characters at the end of `s`. */
  function TrailingSpaces(s: string): (k: nat)
    ensures k <= |s|
    ensures forall i :: |s| - k <= i < |s| ==> IsSpace(s[i])
    ensures k < |s| ==> !IsSpace(s[|s| - 1 - k])
  {
    if s == [] || !IsSpace(s[|s| - 1]) then 0 else 1 + TrailingSpaces(s[..|s| - 1])
  }

  /**
   * `str.strip()`: the slice of `s` left after removing the longest
   * whitespace prefix and the longest whitespace suffix.
   */
  function Strip(s: string): (r: string)
    ensures LeadingSpaces(s) + |r| <= |s|
    ensures r == s[LeadingSpaces(s)..LeadingSpaces(s) + |r|]
    ensures forall i :: 0 <= i < LeadingSpaces(s) ==> IsSpace(s[i])
    ensures forall i :: LeadingSpaces(s) + |r| <= i < |s| ==> IsSpace(s[i])
    ensures r != [] ==> !IsSpace(r[0]) && !IsSpace(r[|r| - 1])
  {
    var rest := s[LeadingSpaces(s)..];
    rest[..|rest| - TrailingSpaces(rest)]
  }

  /** Lower-casing of one character (ASCII letters only). */
  function LowerChar(c: char): char {
    if 'A' <= c <= 'Z' then (c as int - 'A' as int + 'a' as int) as char else c
  }

  /** `str.lower()` on ASCII letters; every other character is kept. */
  function Lower(s: string): (r: string)
    ensures |r| == |s|
    ensures forall i :: 0 <= i < |s| ==> r[i] == LowerChar(s[i])
  {
    if s == [] then [] else [LowerChar(s[0])] + Lower(s[1..])
  }

  /**
   * The confirmation gate: the answer, stripped and lower-cased, is "y" or
   * "yes". So it accepts exactly the answers whose stripped text is "y" or
   * "yes" in any mixture of upper and lower case.
   */
  predicate Confirmed(answer: string): (ok: bool)
    ensures ok <==>
      var t := Strip(answer);
      || (|t| == 1 && t[0] in "yY")
      || (|t| == 3 && t[0] in "yY" && t[1] in "eE" && t[2] in "sS")
  {
    var c := Lower(Strip(answer));
    c == "y" || c == "yes"
  }

  predicate AllSpaces(s: string) {
    forall i :: 0 <= i < |s| ==> IsSpace(s[i])
  }

  lemma {:induction false} LeadingSpacesOf(a: string, rest: string)
    requires AllSpaces(a)
    requires rest == [] || !IsSpace(rest[0])
    ensures LeadingSpaces(a + rest) == |a|
  {
    if a != [] {
      assert (a + rest)[1..] == a[1..] + rest;
      LeadingSpacesOf(a[1..], rest);
    } else {
      assert a + rest == rest;
    }
  }

  lemma {:induction false} TrailingSpacesOf(rest: string, b: string)
    requires AllSpaces(b)
    requires rest == [] || !IsSpace(rest[|rest| - 1])
    ensures TrailingSpaces(rest + b) == |b|
  {
    if b != [] {
      assert (rest + b)[..|rest + b| - 1] == rest + b[..|b| - 1];
      TrailingSpacesOf(rest, b[..|b| - 1]);
    } else {
      assert rest + b == rest;
    }
  }

  /**
   * `Strip` is determined by its contract: surrounding `t` with whitespace
   * on either side and stripping gives back `t`, provided `t` neither
   * starts nor ends with whitespace.
   */
  lemma StripOf(a: string, t: string, b: string)
    requires AllSpaces(a) && AllSpaces(b)
    requires t == [] || (!IsSpace(t[0]) && !IsSpace(t[|t| - 1]))
    ensures Strip(a + t + b) == t
  {
    var s := a + t + b;
    if t == [] {
      assert s == (a + b) + [];
      LeadingSpacesOf(a + b, []);
    } else {
      assert s == a + (t + b);
      LeadingSpacesOf(a, t + b);
      assert s[|a|..] == t + b;
      TrailingSpacesOf(t, b);
    }
  }

  /** Whitespace around the answer never changes the decision. */
  lemma PaddingIgnored(a: string, t: string, b: string)
    requires AllSpaces(a) && AllSpaces(b)
    requires t == [] || (!IsSpace(t[0]) && !IsSpace(t[|t| - 1]))
    ensures Confirmed(a + t + b) <==> Confirmed(t)
  {
    StripOf(a, t, b);
    StripOf([], t, []);
    assert [] + t + [] == t;
  }

  /** A padded upper-case "YES" is accepted. */
  lemma AcceptedAnswer()
    ensures Confirmed(" YES\n")
  {
    StripOf(" ", "YES", "\n");
    assert " " + "YES" + "\n" == " YES\n";
  }

  /** A blank line declines. */
  lemma BlankAnswerDeclines()
    ensures !Confirmed(" \n")
  {
    StripOf(" ", "", "\n");
    assert " \n" == " " + "" + "\n";
  }

  /** Whitespace inside the answer is kept, so "ye s" declines. */
  lemma InnerSpaceDeclines()
    ensures !Confirmed("ye s")
  {
    StripOf("", "ye s", "");
    assert "ye s" == "" + "ye s" + "";
  }
}
