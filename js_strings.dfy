/**
  The ECMAScript string operations the bot relies on, over strings of UTF-16 code units:
  `String.prototype.substr` (Annex B), `indexOf`, `replace` with a string pattern and an
  empty replacement, and `trim`.
 */
module JsStrings {
  import opened Wrappers

  /** One UTF-16 code unit, the element of an ECMAScript string (and the unit of Telegram's entity offsets). */
  newtype CodeUnit = x: int | 0 <= x < 0x1_0000

  type JsString = seq<CodeUnit>

  /** The code unit of a character of the Basic Multilingual Plane; the literals of this model
      lie in it. Characters above it (which UTF-16 writes as two units) map to U+FFFD. */
  function Unit(c: char): CodeUnit
  {
    if c as int < 0x1_0000 then c as int as CodeUnit else 0xFFFD
  }

  /** A string literal as code units, one per character. */
  function Lit(s: string): (r: JsString)
    ensures |r| == |s|
  {
    seq(|s|, i requires 0 <= i < |s| => Unit(s[i]))
  }

  function Min(a: int, b: int): int
  {
    if a <= b then a else b
  }

  // ---------------------------------------------------------------------------
  // substr

  /** `s.substr(start, length)` for non-negative arguments, following the steps of
      ECMAScript Annex B (String.prototype.substr): the start is clamped to the size,
      the length is clamped to [0, size], and the end is clamped to the size again.
      It never fails. */
  function Substr(s: JsString, start: nat, length: nat): JsString
  {
    var size := |s|;
    var intStart := Min(start, size);
    var intLength := Min(length, size);
    var intEnd := Min(intStart + intLength, size);
    s[intStart..intEnd]
  }

  /** The closed form of the clamped slice: empty from the end of the string on,
      otherwise the code units from `start` up to `start + length` or the end. */
  lemma SubstrClamped(s: JsString, start: nat, length: nat)
    ensures start >= |s| ==> Substr(s, start, length) == []
    ensures start < |s| ==> Substr(s, start, length) == s[start..Min(start + length, |s|)]
    ensures |Substr(s, start, length)| <= length
  {
  }

  /** `pat` is found in `s` at position `i`. */
  predicate OccursAt(s: JsString, pat: JsString, i: nat)
  {
    i + |pat| <= |s| && s[i..i + |pat|] == pat
  }

  /** A clamped slice that equals a non-empty `pat` means `pat` lies wholly inside `s`, at `start`. */
  lemma SubstrEqualMeansOccurs(s: JsString, start: nat, length: nat, pat: JsString)
    requires pat != []
    requires Substr(s, start, length) == pat
    ensures OccursAt(s, pat, start)
    ensures |pat| <= length
  {
  }

  /** Conversely, a slice of exactly `|pat|` units at an occurrence of `pat` yields `pat`. */
  lemma OccursMeansSubstrEqual(s: JsString, start: nat, pat: JsString)
    requires OccursAt(s, pat, start)
    ensures Substr(s, start, |pat|) == pat
  {
  }

  /** A slice that runs past the end is cut short, so an over-long length still matches
      an occurrence of `pat` that ends the string. */
  lemma SubstrOverlongAtEnd(s: JsString, start: nat, length: nat, pat: JsString)
    requires OccursAt(s, pat, start) && start + |pat| == |s|
    requires length >= |pat|
    ensures Substr(s, start, length) == pat
  {
  }

  // ---------------------------------------------------------------------------
  // indexOf and replace

  /** The position of the first occurrence of `pat` in `s` at or after `from`
      (ECMAScript StringIndexOf), or None where the source has -1. */
  function IndexOfFrom(s: JsString, pat: JsString, from: nat): (r: Option<nat>)
    decreases |s| - from
    ensures r.Some? ==> from <= r.value && OccursAt(s, pat, r.value)
    ensures r.Some? ==> forall j: nat | from <= j < r.value :: !OccursAt(s, pat, j)
    ensures r.None? ==> forall j: nat | from <= j :: !OccursAt(s, pat, j)
  {
    if from + |pat| > |s| then None
    else if s[from..from + |pat|] == pat then Some(from)
    else IndexOfFrom(s, pat, from + 1)
  }

  /** `s.indexOf(pat)`: the first occurrence of `pat` in `s`. */
  function IndexOf(s: JsString, pat: JsString): (r: Option<nat>)
    ensures r.Some? ==> OccursAt(s, pat, r.value) && forall j: nat | j < r.value :: !OccursAt(s, pat, j)
    ensures r.None? <==> forall j: nat :: !OccursAt(s, pat, j)
  {
    IndexOfFrom(s, pat, 0)
  }

  /** `s.replace(pat, "")` with a string pattern: the first occurrence of `pat`, if any,
      is cut out; with no occurrence the string is returned unchanged. */
  function RemoveFirst(s: JsString, pat: JsString): (r: JsString)
    ensures IndexOf(s, pat).None? ==> r == s
    ensures IndexOf(s, pat).Some? ==> |r| + |pat| == |s|
  {
    match IndexOf(s, pat)
    case None => s
    case Some(i) => s[..i] + s[i + |pat|..]
  }

  /** When `pat` first occurs at `i`, exactly the units `i .. i + |pat|` are removed. */
  lemma RemoveFirstAt(s: JsString, pat: JsString, i: nat)
    requires OccursAt(s, pat, i)
    requires forall j: nat | j < i :: !OccursAt(s, pat, j)
    ensures RemoveFirst(s, pat) == s[..i] + s[i + |pat|..]
  {
    assert IndexOf(s, pat) == Some(i);
  }

  /** Only the first occurrence goes: every occurrence starting after it survives,
      shifted left by `|pat|`. */
  lemma RemoveFirstKeepsLater(s: JsString, pat: JsString, i: nat, j: nat)
    requires OccursAt(s, pat, i)
    requires forall k: nat | k < i :: !OccursAt(s, pat, k)
    requires i + |pat| <= j && OccursAt(s, pat, j)
    ensures OccursAt(RemoveFirst(s, pat), pat, j - |pat|)
  {
    RemoveFirstAt(s, pat, i);
    var r := RemoveFirst(s, pat);
    var n := |pat|;
    assert |r| == |s| - n;
    forall k | 0 <= k < n
      ensures r[j - n + k] == pat[k]
    {
      assert r[j - n + k] == s[j + k];
      assert s[j..j + n][k] == s[j + k];
    }
    assert r[j - n..j - n + n] == pat;
  }

  /** Removing an absent pattern changes nothing. */
  lemma RemoveFirstAbsent(s: JsString, pat: JsString)
    requires forall j: nat :: !OccursAt(s, pat, j)
    ensures RemoveFirst(s, pat) == s
  {
  }

  // ---------------------------------------------------------------------------
  // trim

  /** The code units `String.prototype.trim` strips: ECMAScript WhiteSpace (TAB, VT, FF,
      SPACE, NO-BREAK SPACE, ZERO WIDTH NO-BREAK SPACE and the other Unicode Zs characters)
      and LineTerminator (LF, CR, LINE SEPARATOR, PARAGRAPH SEPARATOR). None of them is a
      surrogate, so working on code units strips the same characters as on code points. */
  predicate IsWhite(c: CodeUnit)
  {
    || c == 0x09 || c == 0x0A || c == 0x0B || c == 0x0C || c == 0x0D
    || c == 0x20 || c == 0xA0 || c == 0x1680
    || (0x2000 <= c <= 0x200A)
    || c == 0x2028 || c == 0x2029 || c == 0x202F || c == 0x205F
    || c == 0x3000 || c == 0xFEFF
  }

  predicate AllWhite(s: JsString)
  {
    forall k | 0 <= k < |s| :: IsWhite(s[k])
  }

  /** Neither end of `s` is white space. */
  predicate Trimmed(s: JsString)
  {
    s == [] || (!IsWhite(s[0]) && !IsWhite(s[|s| - 1]))
  }

  /** Leading white space removed. */
  function TrimStart(s: JsString): JsString
  {
    if s != [] && IsWhite(s[0]) then TrimStart(s[1..]) else s
  }

  /** TrimStart keeps the suffix of `s` after a white prefix, and that suffix does not start
      with white space. */
  lemma {:induction false} TrimStartSpec(s: JsString)
    ensures |TrimStart(s)| <= |s| && TrimStart(s) == s[|s| - |TrimStart(s)|..]
    ensures AllWhite(s[..|s| - |TrimStart(s)|])
    ensures TrimStart(s) == [] || !IsWhite(TrimStart(s)[0])
  {
    if s != [] && IsWhite(s[0]) {
      TrimStartSpec(s[1..]);
      var n := |s| - |TrimStart(s)|;
      assert s[1..][..n - 1] == s[1..n];
      assert forall k | 1 <= k < n :: s[1..n][k - 1] == s[k];
    }
  }

  /** Trailing white space removed. */
  function TrimEnd(s: JsString): JsString
  {
    if s != [] && IsWhite(s[|s| - 1]) then TrimEnd(s[..|s| - 1]) else s
  }

  /** TrimEnd keeps the prefix of `s` before a white suffix, and that prefix does not end
      with white space. */
  lemma {:induction false} TrimEndSpec(s: JsString)
    ensures |TrimEnd(s)| <= |s| && TrimEnd(s) == s[..|TrimEnd(s)|]
    ensures AllWhite(s[|TrimEnd(s)|..])
    ensures TrimEnd(s) == [] || !IsWhite(TrimEnd(s)[|TrimEnd(s)| - 1])
  {
    if s != [] && IsWhite(s[|s| - 1]) {
      var p := s[..|s| - 1];
      TrimEndSpec(p);
      var m := |TrimEnd(s)|;
      assert p[m..] == s[m..|s| - 1];
      assert forall k | m <= k < |s| - 1 :: s[m..|s| - 1][k - m] == s[k];
    }
  }

  /** `s.trim()`: white space removed from both ends. */
  function Trim(s: JsString): (r: JsString)
    ensures Trimmed(r)
    ensures |r| <= |s|
  {
    var t := TrimStart(s);
    var r := TrimEnd(t);
    TrimStartSpec(s);
    TrimEndSpec(t);
    assert r != [] ==> r[0] == t[0];
    r
  }

  /** A prefix `r` of the suffix `t == s[i..]` is the run of `s` at `i`, followed by the rest of `t`. */
  lemma PrefixOfSuffix(s: JsString, i: nat, t: JsString, r: JsString)
    requires i <= |s| && t == s[i..]
    requires |r| <= |t| && r == t[..|r|]
    ensures s[i..i + |r|] == r && s[i + |r|..] == t[|r|..]
  {
  }

  /** Trim keeps a contiguous run of `s`, starting where TrimStart starts, and strips only
      white space around it. */
  lemma TrimIsInfix(s: JsString, i: nat)
    requires i == |s| - |TrimStart(s)|
    ensures i + |Trim(s)| <= |s| && s[i..i + |Trim(s)|] == Trim(s)
    ensures AllWhite(s[..i]) && AllWhite(s[i + |Trim(s)|..])
  {
    var t := TrimStart(s);
    var r := TrimEnd(t);
    TrimStartSpec(s);
    TrimEndSpec(t);
    PrefixOfSuffix(s, i, t, r);
  }

  /** Leading white space up to the first other unit is exactly what TrimStart removes. */
  lemma {:induction false} TrimStartUnique(s: JsString, i: nat)
    requires i <= |s| && AllWhite(s[..i])
    requires i == |s| || !IsWhite(s[i])
    ensures TrimStart(s) == s[i..]
    decreases i
  {
    if i > 0 {
      assert IsWhite(s[..i][0]);
      assert s[1..][..i - 1] == s[..i][1..];
      TrimStartUnique(s[1..], i - 1);
      assert s[1..][i - 1..] == s[i..];
    }
  }

  /** Trailing white space after the last other unit is exactly what TrimEnd removes. */
  lemma {:induction false} TrimEndUnique(s: JsString, j: nat)
    requires j <= |s| && AllWhite(s[j..])
    requires j == 0 || !IsWhite(s[j - 1])
    ensures TrimEnd(s) == s[..j]
    decreases |s| - j
  {
    if j < |s| {
      assert IsWhite(s[j..][|s| - 1 - j]);
      var p := s[..|s| - 1];
      assert p[j..] == s[j..][..|s| - 1 - j];
      TrimEndUnique(p, j);
      assert p[..j] == s[..j];
    }
  }

  /** Trim is fully characterised by its result being trimmed and surrounded by white space. */
  lemma TrimUnique(s: JsString, i: nat, r: JsString)
    requires i + |r| <= |s| && s[i..i + |r|] == r
    requires AllWhite(s[..i]) && AllWhite(s[i + |r|..])
    requires Trimmed(r)
    ensures Trim(s) == r
  {
    if r == [] {
      assert AllWhite(s) by {
        forall k | 0 <= k < |s| ensures IsWhite(s[k]) {
          if k < i { assert s[..i][k] == s[k]; } else { assert s[i..][k - i] == s[k]; }
        }
      }
      TrimStartUnique(s, |s|);
      assert TrimStart(s) == [];
    } else {
      assert s[i] == r[0];
      TrimStartUnique(s, i);
      var t := s[i..];
      assert t[|r|..] == s[i + |r|..];
      assert t[|r| - 1] == r[|r| - 1];
      TrimEndUnique(t, |r|);
      assert t[..|r|] == r;
    }
  }

  /** Trimming a trimmed string changes nothing, and only trimmed strings are left unchanged. */
  lemma TrimFixpoint(s: JsString)
    ensures Trim(s) == s <==> Trimmed(s)
  {
    if Trimmed(s) {
      assert s[0..|s|] == s;
      assert s[..0] == [] && s[|s|..] == [];
      TrimUnique(s, 0, s);
    }
  }

  /** Trimming twice is trimming once. */
  lemma TrimIdempotent(s: JsString)
    ensures Trim(Trim(s)) == Trim(s)
  {
    TrimFixpoint(Trim(s));
  }

  /** A pattern absent from `s` is absent from every contiguous run of `s`. */
  lemma AbsentFromInfix(s: JsString, pat: JsString, i: nat, r: JsString)
    requires i + |r| <= |s| && s[i..i + |r|] == r
    requires forall j: nat :: !OccursAt(s, pat, j)
    ensures forall j: nat :: !OccursAt(r, pat, j)
  {
    forall j: nat | OccursAt(r, pat, j) ensures false {
      forall k | 0 <= k < |pat| ensures s[i + j + k] == pat[k] {
        assert r[j..j + |pat|][k] == r[j + k] == s[i + j + k];
      }
      assert s[i + j..i + j + |pat|] == pat;
      assert OccursAt(s, pat, i + j);
    }
  }

  /** Trimming cannot create an occurrence of a pattern. */
  lemma TrimKeepsAbsent(s: JsString, pat: JsString)
    requires forall j: nat :: !OccursAt(s, pat, j)
    ensures forall j: nat :: !OccursAt(Trim(s), pat, j)
  {
    TrimStartSpec(s);
    TrimIsInfix(s, |s| - |TrimStart(s)|);
    AbsentFromInfix(s, pat, |s| - |TrimStart(s)|, Trim(s));
  }
}
