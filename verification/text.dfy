/** ASCII models of the two string normalisations the consolidation applies to
    every cell it compares or stores: Python's `str.strip()` (no argument) and
    `str.lower()`. */
module Text {

  /** Python's `str.isspace()` restricted to ASCII: the space, the control
      characters TAB, LF, VT, FF, CR (9..13) and the separators FS, GS, RS, US
      (28..31), all of which `strip()` removes. */
  predicate IsSpace(c: char) {
    c == ' ' || 9 <= c as int <= 13 || 28 <= c as int <= 31
  }

  predicate AllSpace(s: string) {
    forall i | 0 <= i < |s| :: IsSpace(s[i])
  }

  /** `s.lstrip()`: drops the leading whitespace. */
  function TrimStart(s: string): (r: string)
    ensures |r| <= |s|
  {
    if s == [] || !IsSpace(s[0]) then s else TrimStart(s[1..])
  }

  /** `s.rstrip()`: drops the trailing whitespace. */
  function TrimEnd(s: string): (r: string)
    ensures |r| <= |s|
  {
    if s == [] || !IsSpace(s[|s| - 1]) then s else TrimEnd(s[..|s| - 1])
  }

  /** `s.strip()`. */
  function Strip(s: string): (r: string)
    ensures |r| <= |s|
  {
    TrimEnd(TrimStart(s))
  }

  /** How many leading whitespace characters `strip()` removes. */
  function LeadingSpace(s: string): nat {
    |s| - |TrimStart(s)|
  }

  /** `lstrip()` keeps a suffix of `s`, everything it drops is whitespace,
      and what it keeps does not start with whitespace. */
  lemma {:induction false} TrimStartSpec(s: string)
    ensures forall i | 0 <= i < |TrimStart(s)| :: TrimStart(s)[i] == s[LeadingSpace(s) + i]
    ensures forall i | 0 <= i < LeadingSpace(s) :: IsSpace(s[i])
    ensures TrimStart(s) == [] || !IsSpace(TrimStart(s)[0])
  {
    if s != [] && IsSpace(s[0]) {
      var t := s[1..];
      TrimStartSpec(t);
      assert TrimStart(s) == TrimStart(t);
      assert LeadingSpace(s) == LeadingSpace(t) + 1;
      forall i | 0 <= i < |TrimStart(s)| ensures TrimStart(s)[i] == s[LeadingSpace(s) + i] {
        assert TrimStart(t)[i] == t[LeadingSpace(t) + i];
      }
      forall i | 0 <= i < LeadingSpace(s) ensures IsSpace(s[i]) {
        if i > 0 {
          assert s[i] == t[i - 1];
        }
      }
    }
  }

  /** `rstrip()` keeps a prefix of `s`, everything it drops is whitespace,
      and what it keeps does not end with whitespace. */
  lemma {:induction false} TrimEndSpec(s: string)
    ensures forall i | 0 <= i < |TrimEnd(s)| :: TrimEnd(s)[i] == s[i]
    ensures forall i | |TrimEnd(s)| <= i < |s| :: IsSpace(s[i])
    ensures TrimEnd(s) == [] || !IsSpace(TrimEnd(s)[|TrimEnd(s)| - 1])
  {
    if s != [] && IsSpace(s[|s| - 1]) {
      TrimEndSpec(s[..|s| - 1]);
    }
  }

  /** `strip()` keeps the middle of `s`: what it removes on either side is
      whitespace, and what it keeps is empty exactly when `s` is all
      whitespace and otherwise starts and ends with a non-whitespace
      character. */
  lemma {:induction false} StripSpec(s: string)
    ensures LeadingSpace(s) + |Strip(s)| <= |s|
    ensures forall i | 0 <= i < |Strip(s)| :: Strip(s)[i] == s[LeadingSpace(s) + i]
    ensures forall i | 0 <= i < LeadingSpace(s) :: IsSpace(s[i])
    ensures forall i | LeadingSpace(s) + |Strip(s)| <= i < |s| :: IsSpace(s[i])
    ensures Strip(s) == [] || (!IsSpace(Strip(s)[0]) && !IsSpace(Strip(s)[|Strip(s)| - 1]))
    ensures Strip(s) == [] <==> AllSpace(s)
  {
    var t := TrimStart(s);
    TrimStartSpec(s);
    TrimEndSpec(t);
    var r := TrimEnd(t);
    assert r == [] ==> AllSpace(t);
    forall i | LeadingSpace(s) + |r| <= i < |s| ensures IsSpace(s[i]) {
      assert s[i] == t[i - LeadingSpace(s)];
    }
  }

  /** Stripping twice is stripping once: every stored cell that went through
      `strip()` is a fixed point of it. */
  lemma {:induction false} StripIdempotent(s: string)
    ensures Strip(Strip(s)) == Strip(s)
  {
    var r := Strip(s);
    StripSpec(s);
    if r != [] {
      assert TrimStart(r) == r;
      assert TrimEnd(r) == r;
    }
  }

  function LowerChar(c: char): char {
    if 'A' <= c <= 'Z' then (c as int + 32) as char else c
  }

  /** `s.lower()` on ASCII letters; every other character is kept. */
  function Lower(s: string): (r: string)
    ensures |r| == |s|
  {
    seq(|s|, i requires 0 <= i < |s| => LowerChar(s[i]))
  }
}
