/** Output keys for the pages of a multi-page document: the part of the
    source key before its first ".tif" (in any letter case), then the split
    marker, the 1-based page number and ".tif". */
module SplitKeys {
  import opened Raster

  const SplitMarker: string := "_SPLITPAGE_"

  const TifExtension: string := ".tif"

  predicate IsT(c: char) {
    c == 't' || c == 'T'
  }

  /** Python's case-insensitive Unicode matching lets 'i' also match the
      dotted capital I and the dotless small i. */
  predicate IsI(c: char) {
    c == 'i' || c == 'I' || c == '\U{0130}' || c == '\U{0131}'
  }

  predicate IsF(c: char) {
    c == 'f' || c == 'F'
  }

  /** The pattern `\.tif(?:f)?` starts a case-insensitive match at index i of s. */
  predicate TifAt(s: string, i: nat) {
    i + 4 <= |s| && s[i] == '.' && IsT(s[i + 1]) && IsI(s[i + 2]) && IsF(s[i + 3])
  }

  /** The first index at or after `from` where a ".tif" match starts. */
  function FirstTif(s: string, from: nat): (r: Option<nat>)
    requires from <= |s|
    ensures r.Some? ==> from <= r.value && TifAt(s, r.value)
    ensures r.Some? ==> forall j: nat :: from <= j < r.value ==> !TifAt(s, j)
    ensures r.None? ==> forall j: nat :: from <= j ==> !TifAt(s, j)
    decreases |s| - from
  {
    if |s| < from + 4 then None
    else if TifAt(s, from) then Some(from)
    else FirstTif(s, from + 1)
  }

  /** The first piece of splitting `key` at the pattern: everything before the
      first match, or the whole key when there is none. */
  function Stem(key: string): (p: string)
    ensures p <= key
    ensures forall j: nat :: j < |p| ==> !TifAt(key, j)
    ensures forall j: nat :: !TifAt(p, j)
    ensures p == key <==> forall j: nat :: !TifAt(key, j)
    ensures p != key ==> TifAt(key, |p|)
  {
    match FirstTif(key, 0)
    case None => key
    case Some(i) =>
      var p := key[..i];
      assert forall j: nat :: TifAt(p, j) ==> TifAt(key, j);
      p
  }

  function DigitChar(d: nat): (c: char)
    requires d < 10
    ensures '0' <= c <= '9' && c as int - '0' as int == d
  {
    (d + '0' as int) as char
  }

  predicate IsDigits(s: string) {
    forall i :: 0 <= i < |s| ==> '0' <= s[i] <= '9'
  }

  /** Python's str() of a natural number: its decimal digits, without leading zeros. */
  function DecimalString(n: nat): (s: string)
    ensures 1 <= |s| && IsDigits(s)
    ensures s[0] == '0' ==> n == 0
    decreases n
  {
    if n < 10 then [DigitChar(n)] else DecimalString(n / 10) + [DigitChar(n % 10)]
  }

  /** The number a string of decimal digits denotes. */
  function DecimalValue(s: string): nat
    requires IsDigits(s)
    decreases |s|
  {
    if s == [] then 0
    else DecimalValue(s[..|s| - 1]) * 10 + (s[|s| - 1] as int - '0' as int)
  }

  /** Reading back the decimal string of n gives n. */
  lemma {:induction false} DecimalRoundTrip(n: nat)
    ensures DecimalValue(DecimalString(n)) == n
    decreases n
  {
    var s := DecimalString(n);
    if n < 10 {
      assert s[..|s| - 1] == [];
    } else {
      assert s[..|s| - 1] == DecimalString(n / 10);
      DecimalRoundTrip(n / 10);
    }
  }

  /** The key of page `pageNum` of a multi-page document stored under `key`. */
  function SplitKey(key: string, pageNum: nat): (out: string)
    ensures Stem(key) <= out
    ensures |out| >= 4 && out[|out| - 4..] == TifExtension
    ensures forall j: nat :: TifAt(out, j) <==> j == |out| - 4
    ensures var h := |Stem(key)| + |SplitMarker|;
      h <= |out| - 4 && out[|Stem(key)|..h] == SplitMarker &&
      IsDigits(out[h..|out| - 4]) && DecimalValue(out[h..|out| - 4]) == pageNum
    ensures out[|Stem(key)| + |SplitMarker|..|out| - 4] == DecimalString(pageNum)
  {
    var p, digits := Stem(key), DecimalString(pageNum);
    var out := p + SplitMarker + digits + TifExtension;
    OnlyTrailingTif(p, digits);
    var h := |p| + |SplitMarker|;
    assert out[|p|..h] == SplitMarker;
    assert out[h..|out| - 4] == digits;
    DecimalRoundTrip(pageNum);
    out
  }

  /** Behind a stem free of ".tif", the split marker and digits, the final
      ".tif" is the only match. */
  lemma OnlyTrailingTif(p: string, digits: string)
    requires forall j: nat :: !TifAt(p, j)
    requires IsDigits(digits)
    ensures var out := p + SplitMarker + digits + TifExtension;
      forall j: nat :: TifAt(out, j) <==> j == |out| - 4
  {
    var out := p + SplitMarker + digits + TifExtension;
    var tail := |p| + |SplitMarker| + |digits|;
    assert |out| - 4 == tail;
    assert TifAt(out, tail);
    forall j: nat | TifAt(out, j)
      ensures j == tail
    {
      if j + 4 <= |p| {
        assert out[j..j + 4] == p[j..j + 4];
        assert TifAt(p, j);
      }
    }
  }

  /** Different pages of one document get different keys. */
  lemma SplitKeyInjective(key: string, n: nat, m: nat)
    requires SplitKey(key, n) == SplitKey(key, m)
    ensures n == m
  {
    var head := Stem(key) + SplitMarker;
    var dn, dm := DecimalString(n), DecimalString(m);
    var outN, outM := head + dn + TifExtension, head + dm + TifExtension;
    assert outN == outM;
    assert dn == outN[|head|..|outN| - 4];
    assert dm == outM[|head|..|outM| - 4];
    DecimalRoundTrip(n);
    DecimalRoundTrip(m);
  }
}
