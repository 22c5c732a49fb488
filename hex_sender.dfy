/**
 * The hex-file SysEx sender (`sysex_send.py`): it scans a text file for
 * `0x...` literals, encodes each as five 7-bit bytes, frames the payload
 * as one SysEx message and sends it with a whole / chunked / byte-by-byte
 * fallback ladder.
 */
module HexSender {
  import opened Common
  import opened MidiOut

  // ---------------------------------------------------------------------
  // Scanning the file for the pattern 0x[0-9A-Fa-f]+
  // ---------------------------------------------------------------------

  predicate IsHexDigit(c: char)
  {
    ('0' <= c <= '9') || ('a' <= c <= 'f') || ('A' <= c <= 'F')
  }

  function HexDigitValue(c: char): (d: nat)
    requires IsHexDigit(c)
    ensures d < 16
  {
    if '0' <= c <= '9' then c as int - '0' as int
    else if 'a' <= c <= 'f' then c as int - 'a' as int + 10
    else c as int - 'A' as int + 10
  }

  predicate AllHexDigits(s: string)
  {
    forall i :: 0 <= i < |s| ==> IsHexDigit(s[i])
  }

  /** A string the pattern matches as a whole: "0x" and at least one hex digit. */
  predicate IsHexToken(t: string)
  {
    |t| >= 3 && t[0] == '0' && t[1] == 'x' && AllHexDigits(t[2..])
  }

  /** The pattern can start matching at position i. */
  predicate MatchAt(s: string, i: int)
  {
    0 <= i && i + 2 < |s| && s[i] == '0' && s[i + 1] == 'x' && IsHexDigit(s[i + 2])
  }

  /** Length of the run of hex digits at the front of s. */
  function HexRun(s: string): (n: nat)
    ensures n <= |s| && AllHexDigits(s[..n])
    ensures n < |s| ==> !IsHexDigit(s[n])
  {
    if |s| == 0 || !IsHexDigit(s[0]) then 0
    else
      var n := 1 + HexRun(s[1..]);
      assert s[..n] == [s[0]] + s[1..][..n - 1];
      n
  }

  /**
   * `re.findall` of the pattern: scanning left to right, the leftmost match
   * is taken greedily and the scan resumes right after it.
   */
  function FindHexTokens(s: string): (r: seq<string>)
    ensures forall k :: 0 <= k < |r| ==> IsHexToken(r[k])
    decreases |s|
  {
    if |s| < 3 then []
    else if MatchAt(s, 0) then
      var n := 2 + HexRun(s[2..]);
      assert s[..n][2..] == s[2..][..n - 2];
      [s[..n]] + FindHexTokens(s[n..])
    else FindHexTokens(s[1..])
  }

  /** findall returns nothing exactly when the pattern matches nowhere. */
  lemma {:induction false} NoTokensIffNoMatch(s: string)
    ensures FindHexTokens(s) == [] <==> (forall i :: !MatchAt(s, i))
    decreases |s|
  {
    if |s| < 3 {
      forall i ensures !MatchAt(s, i) { }
    } else if MatchAt(s, 0) {
    } else {
      NoTokensIffNoMatch(s[1..]);
      forall i | MatchAt(s, i) ensures MatchAt(s[1..], i - 1) {
        assert i != 0;
      }
      forall i | MatchAt(s[1..], i) ensures MatchAt(s, i + 1) { }
    }
  }

  /** No match of the pattern starts at any position in lo..hi-1. */
  predicate NoMatchIn(s: string, lo: int, hi: int)
  {
    forall i :: lo <= i < hi ==> !MatchAt(s, i)
  }

  /** The greedy match at a position where the pattern matches. */
  function TokenAt(s: string, p: int): (t: string)
    requires MatchAt(s, p)
    ensures IsHexToken(t) && |t| == 2 + HexRun(s[p + 2..])
  {
    var n := 2 + HexRun(s[p + 2..]);
    assert s[p .. p + n][2..] == s[p + 2..][..n - 2];
    s[p .. p + n]
  }

  /** Where the search for token k resumes: right after token k-1. */
  function ResumeAt(r: seq<string>, ps: seq<nat>, k: nat): nat
    requires |ps| == |r| && k <= |r|
  {
    if k == 0 then 0 else ps[k - 1] + |r[k - 1]|
  }

  /**
   * r is the list of leftmost, greedy, non-overlapping matches of s, found
   * at positions ps: each token starts at the first match at or after the
   * end of the previous one and runs over every hex digit that follows,
   * and no match starts after the end of the last token.
   */
  predicate IsLeftmostScan(s: string, r: seq<string>, ps: seq<nat>)
  {
    |ps| == |r|
    && (forall k :: 0 <= k < |r| ==> IsLeftmostToken(s, r, ps, k))
    && NoMatchIn(s, ResumeAt(r, ps, |r|), |s|)
  }

  /** Token k of the scan is the first match from where the scan resumes. */
  predicate IsLeftmostToken(s: string, r: seq<string>, ps: seq<nat>, k: nat)
    requires |ps| == |r| && k < |r|
  {
    ResumeAt(r, ps, k) <= ps[k] && MatchAt(s, ps[k]) && r[k] == TokenAt(s, ps[k])
    && NoMatchIn(s, ResumeAt(r, ps, k), ps[k])
  }

  lemma MatchShift(s: string, d: nat, i: int)
    requires d <= |s|
    ensures MatchAt(s[d..], i) <==> i >= 0 && MatchAt(s, i + d)
    ensures MatchAt(s[d..], i) ==> TokenAt(s[d..], i) == TokenAt(s, i + d)
  {
    if MatchAt(s[d..], i) {
      assert s[d..][i + 2..] == s[i + d + 2..];
    }
  }

  /** No match in a range of a suffix of s is no match in the moved range of s. */
  lemma NoMatchShift(s: string, d: nat, lo: int, hi: int)
    requires d <= |s| && 0 <= lo && NoMatchIn(s[d..], lo, hi)
    ensures NoMatchIn(s, lo + d, hi + d)
  {
    forall i | lo + d <= i < hi + d ensures !MatchAt(s, i) {
      MatchShift(s, d, i - d);
    }
  }

  /** Token k of a scan of s[d..], moved by d, seen in s. */
  predicate IsShiftedToken(s: string, d: nat, r: seq<string>, qs: seq<nat>, ps: seq<nat>, k: nat)
    requires |qs| == |r| && |ps| == |r| && k < |r|
  {
    ps[k] == qs[k] + d && ResumeAt(r, qs, k) + d <= ps[k] && MatchAt(s, ps[k])
    && r[k] == TokenAt(s, ps[k]) && NoMatchIn(s, ResumeAt(r, qs, k) + d, ps[k])
  }

  /** A scan of a suffix of s, moved to the positions it has in s. */
  lemma ShiftScan(s: string, d: nat, r: seq<string>, qs: seq<nat>) returns (ps: seq<nat>)
    requires d <= |s| && IsLeftmostScan(s[d..], r, qs)
    ensures |ps| == |r| && |qs| == |r|
    ensures forall k :: 0 <= k < |r| ==> IsShiftedToken(s, d, r, qs, ps, k)
    ensures NoMatchIn(s, ResumeAt(r, qs, |r|) + d, |s|)
  {
    ps := seq(|qs|, k requires 0 <= k < |qs| => qs[k] + d);
    forall k | 0 <= k < |r| ensures IsShiftedToken(s, d, r, qs, ps, k) {
      assert IsLeftmostToken(s[d..], r, qs, k);
      MatchShift(s, d, qs[k]);
      NoMatchShift(s, d, ResumeAt(r, qs, k), qs[k]);
    }
    NoMatchShift(s, d, ResumeAt(r, qs, |r|), |s| - d);
  }

  /** Token k of a scan whose first token is at 0 and whose others are shifted by n. */
  lemma TakeScanToken(s: string, n: nat, rest: seq<string>, qs: seq<nat>, shifted: seq<nat>,
                      r: seq<string>, ps: seq<nat>, k: nat)
    requires MatchAt(s, 0) && n == |TokenAt(s, 0)|
    requires |qs| == |rest| && |shifted| == |rest|
    requires forall j :: 0 <= j < |rest| ==> IsShiftedToken(s, n, rest, qs, shifted, j)
    requires r == [TokenAt(s, 0)] + rest && ps == [0] + shifted
    requires 0 < k < |r|
    ensures IsLeftmostToken(s, r, ps, k)
  {
    assert IsShiftedToken(s, n, rest, qs, shifted, k - 1);
    assert r[k] == rest[k - 1] && ps[k] == shifted[k - 1];
    if k > 1 {
      assert IsShiftedToken(s, n, rest, qs, shifted, k - 2);
      assert ps[k - 1] == shifted[k - 2] && r[k - 1] == rest[k - 2];
    }
  }

  /** A match at 0 followed by a scan of what is left after it. */
  lemma TakeScan(s: string, rest: seq<string>, qs: seq<nat>) returns (ps: seq<nat>)
    requires MatchAt(s, 0)
    requires IsLeftmostScan(s[|TokenAt(s, 0)|..], rest, qs)
    ensures IsLeftmostScan(s, [TokenAt(s, 0)] + rest, ps)
  {
    var t := TokenAt(s, 0);
    var n := |t|;
    var r := [t] + rest;
    var shifted := ShiftScan(s, n, rest, qs);
    ps := [0] + shifted;
    assert IsLeftmostToken(s, r, ps, 0);
    forall k | 0 < k < |r| ensures IsLeftmostToken(s, r, ps, k) {
      TakeScanToken(s, n, rest, qs, shifted, r, ps, k);
    }
    TakeScanEnd(s, n, rest, qs, shifted, r, ps);
  }

  /** The scan built by TakeScan finds nothing after its last token. */
  lemma TakeScanEnd(s: string, n: nat, rest: seq<string>, qs: seq<nat>, shifted: seq<nat>,
                    r: seq<string>, ps: seq<nat>)
    requires MatchAt(s, 0) && n == |TokenAt(s, 0)|
    requires |qs| == |rest| && |shifted| == |rest|
    requires forall j :: 0 <= j < |rest| ==> IsShiftedToken(s, n, rest, qs, shifted, j)
    requires NoMatchIn(s, ResumeAt(rest, qs, |rest|) + n, |s|)
    requires r == [TokenAt(s, 0)] + rest && ps == [0] + shifted
    ensures NoMatchIn(s, ResumeAt(r, ps, |r|), |s|)
  {
    if |rest| > 0 {
      assert IsShiftedToken(s, n, rest, qs, shifted, |rest| - 1);
      assert ps[|r| - 1] == shifted[|rest| - 1] && r[|r| - 1] == rest[|rest| - 1];
    }
  }

  /** No match at 0: the scan of s is the scan of s[1..], moved by one. */
  lemma SkipScan(s: string, r: seq<string>, qs: seq<nat>) returns (ps: seq<nat>)
    requires |s| > 0 && !MatchAt(s, 0)
    requires IsLeftmostScan(s[1..], r, qs)
    ensures IsLeftmostScan(s, r, ps)
  {
    ps := ShiftScan(s, 1, r, qs);
    forall k | 0 <= k < |r| ensures IsLeftmostToken(s, r, ps, k) {
      assert IsShiftedToken(s, 1, r, qs, ps, k);
      if k > 0 {
        assert IsShiftedToken(s, 1, r, qs, ps, k - 1);
      }
    }
    if |r| > 0 {
      assert IsShiftedToken(s, 1, r, qs, ps, |r| - 1);
    }
  }

  /** FindHexTokens is the leftmost, greedy, non-overlapping scan of s. */
  lemma {:induction false} FindHexTokensScan(s: string) returns (ps: seq<nat>)
    ensures IsLeftmostScan(s, FindHexTokens(s), ps)
    decreases |s|
  {
    if |s| < 3 {
      ps := [];
    } else if MatchAt(s, 0) {
      var n := |TokenAt(s, 0)|;
      var qs := FindHexTokensScan(s[n..]);
      ps := TakeScan(s, FindHexTokens(s[n..]), qs);
    } else {
      var qs := FindHexTokensScan(s[1..]);
      ps := SkipScan(s, FindHexTokens(s[1..]), qs);
    }
  }

  /** Two leftmost scans that resume at the same place take the same next token. */
  lemma ScanStep(s: string, r1: seq<string>, ps1: seq<nat>, r2: seq<string>, ps2: seq<nat>, k: nat)
    requires IsLeftmostScan(s, r1, ps1) && IsLeftmostScan(s, r2, ps2)
    requires k < |r1| && k < |r2| && ResumeAt(r1, ps1, k) == ResumeAt(r2, ps2, k)
    ensures ps1[k] == ps2[k] && r1[k] == r2[k]
  {
    assert IsLeftmostToken(s, r1, ps1, k) && IsLeftmostToken(s, r2, ps2, k);
    assert MatchAt(s, ps1[k]) && NoMatchIn(s, ResumeAt(r2, ps2, k), ps2[k]);
    assert MatchAt(s, ps2[k]) && NoMatchIn(s, ResumeAt(r1, ps1, k), ps1[k]);
  }

  /** Every token of a scan is a match lying after the point the scan resumed from. */
  lemma ScanTokenInside(s: string, r: seq<string>, ps: seq<nat>, k: nat)
    requires IsLeftmostScan(s, r, ps) && k < |r|
    ensures ResumeAt(r, ps, k) <= ps[k] < |s| && MatchAt(s, ps[k])
  {
    assert IsLeftmostToken(s, r, ps, k);
  }

  /** When one leftmost scan has ended, so has the other. */
  lemma ScanEnd(s: string, r1: seq<string>, ps1: seq<nat>, r2: seq<string>, ps2: seq<nat>, k: nat)
    requires IsLeftmostScan(s, r1, ps1) && IsLeftmostScan(s, r2, ps2)
    requires k <= |r1| && k <= |r2| && (k == |r1| || k == |r2|)
    requires ResumeAt(r1, ps1, k) == ResumeAt(r2, ps2, k)
    ensures |r1| == |r2|
  {
    if k < |r1| {
      ScanTokenInside(s, r1, ps1, k);
      assert false;
    } else if k < |r2| {
      ScanTokenInside(s, r2, ps2, k);
      assert false;
    }
  }

  /** Two leftmost scans that agree on their first k tokens agree entirely. */
  lemma {:induction false} ScanAgreeFrom(s: string, r1: seq<string>, ps1: seq<nat>,
                                         r2: seq<string>, ps2: seq<nat>, k: nat)
    requires IsLeftmostScan(s, r1, ps1) && IsLeftmostScan(s, r2, ps2)
    requires k <= |r1| && k <= |r2| && r1[..k] == r2[..k] && ps1[..k] == ps2[..k]
    ensures r1 == r2 && ps1 == ps2
    decreases |r1| - k
  {
    assert ResumeAt(r1, ps1, k) == ResumeAt(r2, ps2, k) by {
      if k > 0 {
        assert r1[k - 1] == r1[..k][k - 1] && r2[k - 1] == r2[..k][k - 1];
        assert ps1[k - 1] == ps1[..k][k - 1] && ps2[k - 1] == ps2[..k][k - 1];
      }
    }
    if k < |r1| && k < |r2| {
      ScanStep(s, r1, ps1, r2, ps2, k);
      assert r1[..k + 1] == r1[..k] + [r1[k]] && r2[..k + 1] == r2[..k] + [r2[k]];
      assert ps1[..k + 1] == ps1[..k] + [ps1[k]] && ps2[..k + 1] == ps2[..k] + [ps2[k]];
      ScanAgreeFrom(s, r1, ps1, r2, ps2, k + 1);
    } else {
      ScanEnd(s, r1, ps1, r2, ps2, k);
      assert r1 == r1[..k] && r2 == r2[..k] && ps1 == ps1[..k] && ps2 == ps2[..k];
    }
  }

  /** The leftmost scan of a string is unique. */
  lemma ScanUnique(s: string, r1: seq<string>, ps1: seq<nat>, r2: seq<string>, ps2: seq<nat>)
    requires IsLeftmostScan(s, r1, ps1) && IsLeftmostScan(s, r2, ps2)
    ensures r1 == r2 && ps1 == ps2
  {
    ScanAgreeFrom(s, r1, ps1, r2, ps2, 0);
  }

  /** Conversely, any leftmost scan of s is what FindHexTokens returns. */
  lemma LeftmostScanIsFindHexTokens(s: string, r: seq<string>, ps: seq<nat>)
    requires IsLeftmostScan(s, r, ps)
    ensures r == FindHexTokens(s)
  {
    var qs := FindHexTokensScan(s);
    ScanUnique(s, r, ps, FindHexTokens(s), qs);
  }

  /**
   * `parse_hex_file`: `None` when the file cannot be read (modelled by an
   * absent content) or holds no hex literal, otherwise the literals found.
   */
  function ParseHexFile(content: Option<string>): (r: Option<seq<string>>)
    ensures content.None? ==> r.None?
    ensures content.Some? ==>
      (r.None? <==> forall i :: !MatchAt(content.value, i))
    ensures r.Some? ==> |r.value| > 0 && forall k :: 0 <= k < |r.value| ==> IsHexToken(r.value[k])
  {
    match content
    case None => None
    case Some(text) =>
      var tokens := FindHexTokens(text);
      NoTokensIffNoMatch(text);
      if |tokens| == 0 then None else Some(tokens)
  }

  /** The literals `parse_hex_file` returns are the leftmost scan of the text. */
  lemma ParseHexFileIsScan(text: string, r: seq<string>, ps: seq<nat>)
    requires IsLeftmostScan(text, r, ps)
    ensures ParseHexFile(Some(text)) == if r == [] then None else Some(r)
  {
    LeftmostScanIsFindHexTokens(text, r, ps);
  }

  // ---------------------------------------------------------------------
  // Hex values and their 5-byte encoding
  // ---------------------------------------------------------------------

  /** Value of a string of hex digits, most significant first: k digits hold a value below 16^k. */
  function HexDigitsValue(ds: string): (v: nat)
    requires AllHexDigits(ds)
    ensures v < Pow2(4 * |ds|)
    decreases |ds|
  {
    if |ds| == 0 then 0
    else
      Pow2Nibble(4 * (|ds| - 1));
      16 * HexDigitsValue(ds[..|ds| - 1]) + HexDigitValue(ds[|ds| - 1])
  }

  /** One more hex digit multiplies the range by 16. */
  lemma Pow2Nibble(n: nat)
    ensures Pow2(n + 4) == 16 * Pow2(n)
  {
    Pow2Add(n, 4);
    assert Pow2(4) == 16;
  }

  /** `int(token, 16)` for a matched literal, the digits after "0x": below 16^k for k digits. */
  function TokenValue(t: string): (v: nat)
    requires IsHexToken(t)
    ensures v < Pow2(4 * (|t| - 2))
  {
    HexDigitsValue(t[2..])
  }

  /** The lower-case digit for a value below 16. */
  function HexDigitChar(d: nat): (c: char)
    requires d < 16
    ensures IsHexDigit(c) && HexDigitValue(c) == d
  {
    if d < 10 then ('0' as int + d) as char else ('a' as int + d - 10) as char
  }

  /** `format(n, 'x')`: the lower-case hex digits of n without leading zeros. */
  function HexDigits(n: nat): (ds: string)
    ensures |ds| > 0 && AllHexDigits(ds)
    decreases n
  {
    if n < 16 then [HexDigitChar(n)] else HexDigits(n / 16) + [HexDigitChar(n % 16)]
  }

  /** Reading back the digits of n gives n. */
  lemma {:induction false} HexDigitsRoundTrip(n: nat)
    ensures HexDigitsValue(HexDigits(n)) == n
    decreases n
  {
    var ds := HexDigits(n);
    if n >= 16 {
      HexDigitsRoundTrip(n / 16);
      assert ds[..|ds| - 1] == HexDigits(n / 16);
    }
  }

  /** A value written as a literal `0x...` is a token whose value is the number. */
  lemma TokenValueRoundTrip(n: nat)
    ensures IsHexToken("0x" + HexDigits(n))
    ensures TokenValue("0x" + HexDigits(n)) == n
  {
    var t := "0x" + HexDigits(n);
    assert t[2..] == HexDigits(n);
    HexDigitsRoundTrip(n);
  }

  /**
   * The five bytes for one value: bits 0-6, 7-13, 14-20, 21-27 and 28-31.
   * Python's `>>` on an int is floor division by a power of two and `&`
   * with a positive mask is the floor remainder, which is what Dafny's `/`
   * and `%` compute for a positive divisor, so this is exact for any int,
   * negative ones included.
   */
  function EncodeValue(v: int): (r: seq<Byte>)
    ensures |r| == 5 && SevenBitClean(r) && r[4] < 0x10
  {
    [v % 0x80, (v / 0x80) % 0x80, (v / 0x4000) % 0x80,
     (v / 0x20_0000) % 0x80, (v / 0x1000_0000) % 0x10]
  }

  /** The number five digits stand for: base 128, least significant first. */
  function Weight(g: seq<int>): int
    requires |g| == 5
  {
    g[0] + 0x80 * g[1] + 0x4000 * g[2] + 0x20_0000 * g[3] + 0x1000_0000 * g[4]
  }

  /**
   * The five bytes are the base-128 digits (the last one base 16) of the
   * value's low 32 bits; since the digit ranges are fixed this determines
   * the bytes uniquely.
   */
  lemma EncodeValueWeights(v: int)
    ensures Weight(EncodeValue(v)) == U32(v)
  {
    var q1, r0 := v / 0x80, v % 0x80;
    var q2, r1 := q1 / 0x80, q1 % 0x80;
    var q3, r2 := q2 / 0x80, q2 % 0x80;
    var q4, r3 := q3 / 0x80, q3 % 0x80;
    var q5, r4 := q4 / 0x10, q4 % 0x10;
    DivUnique(v, 0x4000, q2, r0 + 0x80 * r1);
    DivUnique(v, 0x20_0000, q3, r0 + 0x80 * r1 + 0x4000 * r2);
    DivUnique(v, 0x1000_0000, q4, r0 + 0x80 * r1 + 0x4000 * r2 + 0x20_0000 * r3);
    DivUnique(v, TWO_32, q5, r0 + 0x80 * r1 + 0x4000 * r2 + 0x20_0000 * r3 + 0x1000_0000 * r4);
  }

  /** Bits above 31 are dropped: only the low 32 bits are encoded. */
  lemma EncodeValueLow32(v: int)
    ensures EncodeValue(v) == EncodeValue(U32(v))
  {
    var p := U32(v);
    assert U32(p) == p by { DivUnique(p, TWO_32, 0, p); }
    var a, b := EncodeValue(v), EncodeValue(p);
    assert Weight(a) == Weight(b) by {
      EncodeValueWeights(v);
      EncodeValueWeights(p);
    }
    DigitsUnique(a, b);
  }

  /** Two 5-byte groups with equal weighted sums are equal. */
  predicate IsDigitGroup(g: seq<int>)
  {
    |g| == 5 && SevenBitClean(g) && 0 <= g[4] < 0x10
  }

  /** A digit group is recovered from its weight. */
  lemma DigitsOfWeight(g: seq<int>)
    requires IsDigitGroup(g)
    ensures var n := Weight(g);
      g[0] == n % 0x80 && g[1] == (n / 0x80) % 0x80 && g[2] == (n / 0x4000) % 0x80
      && g[3] == (n / 0x20_0000) % 0x80 && g[4] == n / 0x1000_0000
  {
    var n := Weight(g);
    DivUnique(n, 0x80, g[1] + 0x80 * g[2] + 0x4000 * g[3] + 0x20_0000 * g[4], g[0]);
    var n1 := n / 0x80;
    DivUnique(n1, 0x80, g[2] + 0x80 * g[3] + 0x4000 * g[4], g[1]);
    DivUnique(n, 0x4000, g[2] + 0x80 * g[3] + 0x4000 * g[4], g[0] + 0x80 * g[1]);
    var n2 := n / 0x4000;
    DivUnique(n2, 0x80, g[3] + 0x80 * g[4], g[2]);
    DivUnique(n, 0x20_0000, g[3] + 0x80 * g[4], g[0] + 0x80 * g[1] + 0x4000 * g[2]);
    var n3 := n / 0x20_0000;
    DivUnique(n3, 0x80, g[4], g[3]);
    DivUnique(n, 0x1000_0000, g[4], g[0] + 0x80 * g[1] + 0x4000 * g[2] + 0x20_0000 * g[3]);
  }

  /** Two digit groups with equal weights are equal. */
  lemma DigitsUnique(a: seq<int>, b: seq<int>)
    requires IsDigitGroup(a) && IsDigitGroup(b) && Weight(a) == Weight(b)
    ensures a == b
  {
    DigitsOfWeight(a);
    DigitsOfWeight(b);
  }

  /** The payload: the values' 5-byte groups in order. */
  function EncodePayload(vs: seq<int>): (r: seq<Byte>)
    ensures |r| == 5 * |vs| && SevenBitClean(r)
    decreases |vs|
  {
    if |vs| == 0 then []
    else EncodePayload(vs[..|vs| - 1]) + EncodeValue(vs[|vs| - 1])
  }

  /** Group k of the payload is the encoding of value k. */
  lemma {:induction false} EncodePayloadGroup(vs: seq<int>, k: nat)
    requires k < |vs|
    ensures EncodePayload(vs)[5 * k .. 5 * k + 5] == EncodeValue(vs[k])
    decreases |vs|
  {
    var init := vs[..|vs| - 1];
    if k < |vs| - 1 {
      EncodePayloadGroup(init, k);
      assert EncodePayload(vs)[5 * k .. 5 * k + 5] == EncodePayload(init)[5 * k .. 5 * k + 5];
    } else {
      assert |EncodePayload(init)| == 5 * k;
    }
  }

  lemma {:induction false} EncodePayloadAppend(a: seq<int>, b: seq<int>)
    ensures EncodePayload(a + b) == EncodePayload(a) + EncodePayload(b)
    decreases |b|
  {
    if |b| == 0 {
      assert a + b == a;
    } else {
      var b' := b[..|b| - 1];
      assert (a + b)[..|a + b| - 1] == a + b';
      EncodePayloadAppend(a, b');
    }
  }

  /** The values of the literals, in file order. */
  function TokenValues(tokens: seq<string>): (vs: seq<nat>)
    requires forall k :: 0 <= k < |tokens| ==> IsHexToken(tokens[k])
    ensures |vs| == |tokens|
    ensures forall k :: 0 <= k < |tokens| ==> vs[k] == TokenValue(tokens[k])
  {
    seq(|tokens|, k requires 0 <= k < |tokens| => TokenValue(tokens[k]))
  }

  /** A text listing the values as literals, each followed by a space. */
  function LiteralsText(ns: seq<nat>): string
    decreases |ns|
  {
    if |ns| == 0 then [] else "0x" + HexDigits(ns[0]) + " " + LiteralsText(ns[1..])
  }

  /** The run of hex digits at the front of a + b is a when b starts with a non-digit. */
  lemma {:induction false} HexRunOfDigits(a: string, b: string)
    requires AllHexDigits(a) && |b| > 0 && !IsHexDigit(b[0])
    ensures HexRun(a + b) == |a|
    decreases |a|
  {
    if |a| > 0 {
      assert (a + b)[1..] == a[1..] + b;
      HexRunOfDigits(a[1..], b);
    } else {
      assert a + b == b;
    }
  }

  /** A literal followed by a space is found whole, and the scan goes on after it. */
  lemma FindLiteralThenRest(ds: string, rest: string)
    requires |ds| > 0 && AllHexDigits(ds)
    ensures FindHexTokens("0x" + ds + " " + rest) == ["0x" + ds] + FindHexTokens(rest)
  {
    var s := "0x" + ds + " " + rest;
    assert s[2..] == ds + ([' '] + rest);
    HexRunOfDigits(ds, [' '] + rest);
    var n := 2 + |ds|;
    assert MatchAt(s, 0);
    assert s[..n] == "0x" + ds && s[n..] == [' '] + rest;
    if |rest| >= 2 {
      assert ([' '] + rest)[1..] == rest;
    }
  }

  /** Scanning a text of literals finds them all, and their values are the listed numbers. */
  lemma {:induction false} ScanLiteralsText(ns: seq<nat>)
    ensures TokenValues(FindHexTokens(LiteralsText(ns))) == ns
    decreases |ns|
  {
    if |ns| > 0 {
      var ds := HexDigits(ns[0]);
      var rest := LiteralsText(ns[1..]);
      FindLiteralThenRest(ds, rest);
      ScanLiteralsText(ns[1..]);
      TokenValueRoundTrip(ns[0]);
      var r := FindHexTokens(LiteralsText(ns));
      assert r == ["0x" + ds] + FindHexTokens(rest);
      assert TokenValues(r) == [ns[0]] + TokenValues(FindHexTokens(rest));
    }
  }

  /** `hex_to_sysex_bytes`: appends each literal's five bytes in a loop. */
  method HexToSysexBytes(tokens: seq<string>) returns (data: seq<Byte>)
    requires forall k :: 0 <= k < |tokens| ==> IsHexToken(tokens[k])
    ensures data == EncodePayload(TokenValues(tokens))
    ensures |data| == 5 * |tokens| && SevenBitClean(data)
  {
    ghost var vs := TokenValues(tokens);
    data := [];
    var i := 0;
    while i < |tokens|
      invariant 0 <= i <= |tokens|
      invariant data == EncodePayload(vs[..i])
    {
      var value := TokenValue(tokens[i]);
      data := data + EncodeValue(value);
      assert vs[..i + 1][..i] == vs[..i];
      i := i + 1;
    }
    assert vs[..i] == vs;
  }

  // ---------------------------------------------------------------------
  // Framing and the fallback ladder
  // ---------------------------------------------------------------------

  const SYSEX_START: Byte := 0xF0
  const SYSEX_END: Byte := 0xF7
  const DEFAULT_MANUFACTURER_ID: Byte := 0x7D
  const DEFAULT_MAX_CHUNK: int := 1024
  const MIN_CHUNK: int := 256

  /** `[0xF0, id] + data + [0xF7]`. */
  function FullMessage(id: Byte, data: seq<Byte>): (m: seq<Byte>)
    ensures |m| == |data| + 3 && m[0] == SYSEX_START && m[1] == id
    ensures m[2 .. |m| - 1] == data && m[|m| - 1] == SYSEX_END
  {
    [SYSEX_START, id] + data + [SYSEX_END]
  }

  /** `min(max_chunk_size, total // 10)`, raised to 256 when below it. */
  function ChunkSize(total: nat, maxChunk: int): (c: int)
    ensures c >= MIN_CHUNK
    ensures c == MIN_CHUNK || (c == maxChunk && maxChunk <= total / 10) || (c == total / 10 && total / 10 <= maxChunk)
    ensures c > MIN_CHUNK ==> c <= maxChunk && c <= total / 10
  {
    var c := Min(maxChunk, total / 10);
    if c < MIN_CHUNK then MIN_CHUNK else c
  }

  /** The single-byte messages of the byte-by-byte strategy. */
  function Singletons(m: seq<Byte>): (r: seq<seq<Byte>>)
    ensures |r| == |m| && forall k :: 0 <= k < |m| ==> r[k] == [m[k]]
  {
    seq(|m|, k requires 0 <= k < |m| => [m[k]])
  }

  datatype Strategy = Whole | Chunked | ByteWise | AllFailed

  /** Which strategy of the ladder finishes without the port raising. */
  function LadderOutcome(accepts: seq<Byte> -> bool, full: seq<Byte>, chunk: nat): (r: Strategy)
    requires chunk > 0
    ensures r == Whole <==> accepts(full)
    ensures r == Chunked ==> AllAccepted(accepts, Chunks(full, chunk))
    ensures r == ByteWise ==> AllAccepted(accepts, Singletons(full))
  {
    if accepts(full) then Whole
    else if AllAccepted(accepts, Chunks(full, chunk)) then Chunked
    else if AllAccepted(accepts, Singletons(full)) then ByteWise
    else AllFailed
  }

  /** What the port has delivered once the ladder stops: only messages it accepted. */
  function LadderLog(accepts: seq<Byte> -> bool, full: seq<Byte>, chunk: nat): (r: seq<seq<Byte>>)
    requires chunk > 0
    ensures AllAccepted(accepts, r)
  {
    if accepts(full) then [full]
    else
      var chunks := Chunks(full, chunk);
      AcceptedPrefixIsLongest(accepts, chunks);
      AcceptedPrefixIsLongest(accepts, Singletons(full));
      AcceptedPrefix(accepts, chunks)
        + (if AllAccepted(accepts, chunks) then [] else AcceptedPrefix(accepts, Singletons(full)))
  }

  /** Each strategy is tried only after every earlier one raised. */
  lemma LadderOrder(accepts: seq<Byte> -> bool, full: seq<Byte>, chunk: nat)
    requires chunk > 0
    ensures LadderOutcome(accepts, full, chunk) != Whole ==> !accepts(full)
    ensures LadderOutcome(accepts, full, chunk) in {ByteWise, AllFailed} ==>
      exists k :: 0 <= k < |Chunks(full, chunk)| && !accepts(Chunks(full, chunk)[k])
    ensures LadderOutcome(accepts, full, chunk) == AllFailed ==>
      exists k :: 0 <= k < |full| && !accepts([full[k]])
  {
    var o := LadderOutcome(accepts, full, chunk);
    if o == AllFailed {
      var s := Singletons(full);
      var k :| 0 <= k < |s| && !accepts(s[k]);
      assert s[k] == [full[k]];
    }
  }

  /** When the chunked strategy succeeds, the chunks delivered add up to the message. */
  lemma ChunkedDeliversMessage(accepts: seq<Byte> -> bool, full: seq<Byte>, chunk: nat)
    requires chunk > 0 && LadderOutcome(accepts, full, chunk) == Chunked
    ensures Flatten(LadderLog(accepts, full, chunk)) == full
    ensures forall k :: 0 <= k < |LadderLog(accepts, full, chunk)| ==>
      |LadderLog(accepts, full, chunk)[k]| <= chunk
  {
    var chunks := Chunks(full, chunk);
    AcceptedPrefixAll(accepts, chunks);
    assert LadderLog(accepts, full, chunk) == chunks + [];
    assert chunks + [] == chunks;
    ChunksCover(full, chunk);
  }

  /** The `for i in range(0, total, chunk)` loop of the chunked strategy. */
  method SendChunks(port: Port, full: seq<Byte>, chunk: nat) returns (ok: bool)
    requires chunk > 0
    modifies port
    ensures ok == AllAccepted(port.accepts, Chunks(full, chunk))
    ensures port.sent == old(port.sent) + AcceptedPrefix(port.accepts, Chunks(full, chunk))
    ensures port.isOpen == old(port.isOpen)
  {
    var total := |full|;
    ghost var chunks := Chunks(full, chunk);
    ghost var k := 0;
    var i := 0;
    ok := true;
    while i < total && ok
      invariant 0 <= i <= total && 0 <= k <= |chunks|
      invariant chunks[k..] == Chunks(full[i..], chunk)
      invariant AllAccepted(port.accepts, chunks[..k])
      invariant port.sent == old(port.sent) + chunks[..k]
      invariant !ok ==> k < |chunks| && !port.accepts(chunks[k])
      invariant ok && i == total ==> k == |chunks|
      invariant port.isOpen == old(port.isOpen)
      decreases total - i, ok
    {
      var end := Min(i + chunk, total);
      ChunksAdvance(full, chunk, i, chunks, k);
      ok := port.Send(full[i..end]);
      if ok {
        AcceptedStep(port.accepts, chunks, k);
        k := k + 1;
        i := end;
      }
    }
    AcceptedPrefixStops(port.accepts, chunks, k);
  }

  /** The `for byte_val in full_sysex_message` loop of the last strategy. */
  method SendBytes(port: Port, full: seq<Byte>) returns (ok: bool)
    modifies port
    ensures ok == AllAccepted(port.accepts, Singletons(full))
    ensures port.sent == old(port.sent) + AcceptedPrefix(port.accepts, Singletons(full))
    ensures port.isOpen == old(port.isOpen)
  {
    ghost var singles := Singletons(full);
    var j := 0;
    ok := true;
    while j < |full| && ok
      invariant 0 <= j <= |full|
      invariant AllAccepted(port.accepts, singles[..j])
      invariant port.sent == old(port.sent) + singles[..j]
      invariant !ok ==> j < |full| && !port.accepts(singles[j])
      invariant port.isOpen == old(port.isOpen)
      decreases |full| - j, ok
    {
      ok := port.Send([full[j]]);
      if ok {
        AcceptedStep(port.accepts, singles, j);
        j := j + 1;
      }
    }
    AcceptedPrefixStops(port.accepts, singles, j);
  }

  /** The three nested attempts of the ladder on an already framed message. */
  method SendLadder(port: Port, full: seq<Byte>, chunk: nat) returns (ok: bool)
    requires chunk > 0
    modifies port
    ensures ok <==> LadderOutcome(port.accepts, full, chunk) != AllFailed
    ensures port.sent == old(port.sent) + LadderLog(port.accepts, full, chunk)
    ensures port.isOpen == old(port.isOpen)
  {
    ghost var before := port.sent;
    ok := port.Send(full);
    if ok {
      LadderStepWhole(port.accepts, full, chunk);
      assert port.sent == before + [full];
    } else {
      assert port.sent == before;
      ok := SendFallback(port, full, chunk);
    }
  }

  /** The second and third attempts of the ladder, after the whole message was refused. */
  method SendFallback(port: Port, full: seq<Byte>, chunk: nat) returns (ok: bool)
    requires chunk > 0 && !port.accepts(full)
    modifies port
    ensures ok <==> LadderOutcome(port.accepts, full, chunk) != AllFailed
    ensures port.sent == old(port.sent) + LadderLog(port.accepts, full, chunk)
    ensures port.isOpen == old(port.isOpen)
  {
    ghost var acc := port.accepts;
    ghost var before := port.sent;
    ghost var chunks := AcceptedPrefix(acc, Chunks(full, chunk));
    ok := SendChunks(port, full, chunk);
    assert port.sent == before + chunks;
    if ok {
      assert LadderOutcome(acc, full, chunk) == Chunked && LadderLog(acc, full, chunk) == chunks by {
        LadderStepChunked(acc, full, chunk);
      }
      return;
    }
    ghost var singles := AcceptedPrefix(acc, Singletons(full));
    ok := SendBytes(port, full);
    assert port.sent == (before + chunks) + singles;
    assert (ok <==> LadderOutcome(acc, full, chunk) != AllFailed) && LadderLog(acc, full, chunk) == chunks + singles by {
      LadderStepBytes(acc, full, chunk);
    }
    SeqAssoc(before, chunks, singles);
    assert port.sent == before + LadderLog(acc, full, chunk);
  }

  lemma LadderStepWhole(acc: seq<Byte> -> bool, full: seq<Byte>, chunk: nat)
    requires chunk > 0 && acc(full)
    ensures LadderOutcome(acc, full, chunk) == Whole && LadderLog(acc, full, chunk) == [full]
  {
  }

  lemma LadderStepChunked(acc: seq<Byte> -> bool, full: seq<Byte>, chunk: nat)
    requires chunk > 0 && !acc(full) && AllAccepted(acc, Chunks(full, chunk))
    ensures LadderOutcome(acc, full, chunk) == Chunked
    ensures LadderLog(acc, full, chunk) == AcceptedPrefix(acc, Chunks(full, chunk))
  {
    assert AcceptedPrefix(acc, Chunks(full, chunk)) + [] == AcceptedPrefix(acc, Chunks(full, chunk));
  }

  lemma LadderStepBytes(acc: seq<Byte> -> bool, full: seq<Byte>, chunk: nat)
    requires chunk > 0 && !acc(full) && !AllAccepted(acc, Chunks(full, chunk))
    ensures LadderOutcome(acc, full, chunk) != AllFailed <==> AllAccepted(acc, Singletons(full))
    ensures LadderLog(acc, full, chunk)
      == AcceptedPrefix(acc, Chunks(full, chunk)) + AcceptedPrefix(acc, Singletons(full))
  {
  }

  /**
   * `send_sysex`: try the whole message; if the port raises, send
   * `chunk`-sized raw slices of the framed message; if one of those raises,
   * send it byte by byte.  False only when all three raised.
   */
  method SendSysex(port: Port, data: seq<Byte>, id: Byte, maxChunk: int) returns (ok: bool)
    modifies port
    ensures ok <==> LadderOutcome(port.accepts, FullMessage(id, data), ChunkSize(|data| + 3, maxChunk)) != AllFailed
    ensures port.sent == old(port.sent) + LadderLog(port.accepts, FullMessage(id, data), ChunkSize(|data| + 3, maxChunk))
    ensures port.isOpen == old(port.isOpen)
  {
    var full := FullMessage(id, data);
    var chunk := ChunkSize(|full|, maxChunk);
    ok := SendLadder(port, full, chunk);
  }

  // ---------------------------------------------------------------------
  // Interactive parameters and the script's main flow
  // ---------------------------------------------------------------------

  /** The characters Python's `str.isspace` accepts. */
  predicate IsSpace(c: char)
  {
    c == ' ' || '\t' <= c <= '\r' || '\U{1C}' <= c <= '\U{1F}' || c == '\U{85}' || c == '\U{A0}'
    || c == '\U{1680}' || '\U{2000}' <= c <= '\U{200A}' || c == '\U{2028}' || c == '\U{2029}'
    || c == '\U{202F}' || c == '\U{205F}' || c == '\U{3000}'
  }

  /** `str.strip()`. */
  function Strip(s: string): (t: string)
    ensures |t| <= |s|
    ensures |t| > 0 ==> !IsSpace(t[0]) && !IsSpace(t[|t| - 1])
    decreases |s|
  {
    if |s| > 0 && IsSpace(s[0]) then Strip(s[1..])
    else if |s| > 0 && IsSpace(s[|s| - 1]) then Strip(s[..|s| - 1])
    else s
  }

  /**
   * Strip removes exactly a run of whitespace at each end: the result is a
   * slice of the input with only whitespace before and after it.
   */
  lemma {:induction false} StripIsTrim(s: string) returns (i: nat, j: nat)
    ensures i <= j <= |s| && Strip(s) == s[i..j]
    ensures forall k :: 0 <= k < i ==> IsSpace(s[k])
    ensures forall k :: j <= k < |s| ==> IsSpace(s[k])
    decreases |s|
  {
    if |s| > 0 && IsSpace(s[0]) {
      var i', j' := StripIsTrim(s[1..]);
      i, j := TrimFront(s, s[1..], i', j');
    } else if |s| > 0 && IsSpace(s[|s| - 1]) {
      i, j := StripIsTrim(s[..|s| - 1]);
      TrimBack(s, s[..|s| - 1], i, j);
    } else {
      i, j := 0, |s|;
    }
  }

  /** A trim of t == s[1..] is a trim of s, moved by one, when s[0] is whitespace. */
  lemma TrimFront(s: string, t: string, i': nat, j': nat) returns (i: nat, j: nat)
    requires |s| > 0 && t == s[1..] && IsSpace(s[0]) && i' <= j' <= |t|
    requires forall k :: 0 <= k < i' ==> IsSpace(t[k])
    requires forall k :: j' <= k < |t| ==> IsSpace(t[k])
    ensures i == i' + 1 && j == j' + 1 && t[i'..j'] == s[i..j]
    ensures forall k :: 0 <= k < i ==> IsSpace(s[k])
    ensures forall k :: j <= k < |s| ==> IsSpace(s[k])
  {
    i, j := i' + 1, j' + 1;
    assert t[i'..j'] == s[i..j];
    forall k | 0 < k < i ensures IsSpace(s[k]) {
      assert s[k] == t[k - 1];
    }
    forall k | j <= k < |s| ensures IsSpace(s[k]) {
      assert s[k] == t[k - 1];
    }
  }

  /** A trim of t, s without its last char, is a trim of s when that char is whitespace. */
  lemma TrimBack(s: string, t: string, i: nat, j: nat)
    requires |s| > 0 && t == s[..|s| - 1] && IsSpace(s[|s| - 1]) && i <= j <= |t|
    requires forall k :: 0 <= k < i ==> IsSpace(t[k])
    requires forall k :: j <= k < |t| ==> IsSpace(t[k])
    ensures t[i..j] == s[i..j]
    ensures forall k :: 0 <= k < i ==> IsSpace(s[k])
    ensures forall k :: j <= k < |s| ==> IsSpace(s[k])
  {
    assert t[i..j] == s[i..j];
    forall k | 0 <= k < i ensures IsSpace(s[k]) {
      assert s[k] == t[k];
    }
    forall k | j <= k < |s| ensures IsSpace(s[k]) {
      if k < |t| {
        assert s[k] == t[k];
      }
    }
  }

  predicate IsDecDigit(c: char)
  {
    '0' <= c <= '9'
  }

  predicate AllDecDigits(s: string)
  {
    forall i :: 0 <= i < |s| ==> IsDecDigit(s[i])
  }

  function DecDigitValue(c: char): (d: nat)
    requires IsDecDigit(c)
    ensures d < 10
  {
    c as int - '0' as int
  }

  function DecDigitsValue(ds: string): nat
    requires AllDecDigits(ds)
    decreases |ds|
  {
    if |ds| == 0 then 0
    else 10 * DecDigitsValue(ds[..|ds| - 1]) + DecDigitValue(ds[|ds| - 1])
  }

  /**
   * Python's `int()` lets single underscores separate digits: none first,
   * none last and never two in a row.
   */
  predicate UnderscoresBetweenDigits(s: string)
  {
    |s| > 0 && s[0] != '_' && s[|s| - 1] != '_'
    && forall i, j :: 0 <= i < |s| && j == i + 1 < |s| && s[i] == '_' ==> s[j] != '_'
  }

  /** The string with its underscores removed. */
  function DropUnderscores(s: string): string
    decreases |s|
  {
    if |s| == 0 then []
    else (if s[0] == '_' then [] else [s[0]]) + DropUnderscores(s[1..])
  }

  /** Removing underscores leaves none and keeps a string without any as it is. */
  lemma {:induction false} DropUnderscoresSpec(s: string)
    ensures '_' !in DropUnderscores(s) && |DropUnderscores(s)| <= |s|
    ensures '_' !in s ==> DropUnderscores(s) == s
    decreases |s|
  {
    if |s| > 0 {
      DropUnderscoresSpec(s[1..]);
      assert s == [s[0]] + s[1..];
    }
  }

  /** Digits separated by single underscores, read in base 16. */
  function GroupedHexValue(body: string): Option<nat>
  {
    var ds := DropUnderscores(body);
    if UnderscoresBetweenDigits(body) && AllHexDigits(ds) then Some(HexDigitsValue(ds)) else None
  }

  /** Digits separated by single underscores, read in base 10. */
  function GroupedDecValue(body: string): Option<nat>
  {
    var ds := DropUnderscores(body);
    if UnderscoresBetweenDigits(body) && AllDecDigits(ds) then Some(DecDigitsValue(ds)) else None
  }

  /** What follows an optional 0x/0X prefix and the one underscore allowed after it. */
  function HexBody(s: string): (body: string)
    ensures |body| <= |s|
  {
    var prefixed := |s| >= 2 && s[0] == '0' && (s[1] == 'x' || s[1] == 'X');
    if prefixed && |s| > 2 && s[2] == '_' then s[3..] else if prefixed then s[2..] else s
  }

  /** `int(s, 16)` without a sign. */
  function ParseHexMagnitude(s: string): Option<nat>
  {
    GroupedHexValue(HexBody(s))
  }

  /** The string after its optional sign. */
  function Unsigned(s: string): (u: string)
    ensures |u| <= |s|
  {
    if |s| > 0 && (s[0] == '+' || s[0] == '-') then s[1..] else s
  }

  /** The magnitude read after the sign, negated when the sign is '-'. */
  function ApplySign(s: string, magnitude: Option<nat>): (r: Option<int>)
    ensures r.Some? <==> magnitude.Some?
    ensures r.Some? && r.value < 0 ==> |s| > 0 && s[0] == '-'
  {
    match magnitude
    case None => None
    case Some(m) =>
      var v: int := m;
      Some(if |s| > 0 && s[0] == '-' then -v else v)
  }

  /** `int(s, 16)`; `None` stands for the ValueError. */
  function ParseHexInt(s: string): (r: Option<int>)
    ensures |s| == 0 ==> r.None?
    ensures r.Some? && r.value < 0 ==> s[0] == '-'
  {
    ApplySign(s, ParseHexMagnitude(Unsigned(s)))
  }

  /** `int(s)`; `None` stands for the ValueError. */
  function ParseDecInt(s: string): (r: Option<int>)
    ensures |s| == 0 ==> r.None?
    ensures r.Some? && r.value < 0 ==> s[0] == '-'
  {
    ApplySign(s, GroupedDecValue(Unsigned(s)))
  }

  /** Python's `str(n)` for a natural number: its decimal digits without leading zeros. */
  function DecDigits(n: nat): (ds: string)
    ensures |ds| > 0 && AllDecDigits(ds)
    decreases n
  {
    var last := ('0' as int + n % 10) as char;
    if n < 10 then [last] else DecDigits(n / 10) + [last]
  }

  lemma {:induction false} DecDigitsRoundTrip(n: nat)
    ensures DecDigitsValue(DecDigits(n)) == n
    decreases n
  {
    var ds := DecDigits(n);
    if n >= 10 {
      DecDigitsRoundTrip(n / 10);
      assert ds[..|ds| - 1] == DecDigits(n / 10);
    }
  }

  /** A digit string holds no underscore, so it is its own underscore-free form. */
  lemma DigitsHaveNoUnderscore(ds: string)
    requires AllHexDigits(ds)
    ensures '_' !in ds && UnderscoresBetweenDigits(ds) == (|ds| > 0)
    ensures DropUnderscores(ds) == ds
  {
    forall i | 0 <= i < |ds| ensures ds[i] != '_' {
      assert IsHexDigit(ds[i]);
    }
    DropUnderscoresSpec(ds);
  }

  /** Plain digits read as their value. */
  lemma GroupedValueOfDigits(ds: string)
    requires |ds| > 0 && AllHexDigits(ds)
    ensures GroupedHexValue(ds) == Some(HexDigitsValue(ds))
    ensures AllDecDigits(ds) ==> GroupedDecValue(ds) == Some(DecDigitsValue(ds))
  {
    DigitsHaveNoUnderscore(ds);
  }

  /** A string starting with a digit other than a 0x/0X prefix is its own body. */
  lemma HexBodyUnprefixed(s: string)
    requires |s| > 0 && IsHexDigit(s[0]) && (|s| >= 2 ==> IsHexDigit(s[1]) || s[1] == '_')
    ensures HexBody(s) == s
  {
  }

  /** After a 0x/0X prefix, and one underscore if present, the body is the digits that follow. */
  lemma HexBodyPrefixed(h: string, x: char)
    requires |h| > 0 && IsHexDigit(h[0]) && (x == 'x' || x == 'X')
    ensures HexBody(['0', x] + h) == h
    ensures HexBody(['0', x, '_'] + h) == h
  {
    assert (['0', x] + h)[2..] == h && (['0', x] + h)[2] == h[0];
    assert (['0', x, '_'] + h)[3..] == h;
  }

  /** `int()` reads back the decimal digits of n, with or without a sign. */
  lemma ParseFormattedDecimal(n: nat)
    ensures ParseDecInt(DecDigits(n)) == Some(n)
    ensures ParseDecInt("+" + DecDigits(n)) == Some(n)
    ensures ParseDecInt("-" + DecDigits(n)) == Some(-(n as int))
  {
    var d := DecDigits(n);
    assert AllHexDigits(d);
    GroupedValueOfDigits(d);
    DecDigitsRoundTrip(n);
    ParseDecUnsigned(d, n);
  }

  /** `int(s)` of a sign-free string is its magnitude, under either sign. */
  lemma ParseDecUnsigned(s: string, m: nat)
    requires |s| > 0 && s[0] != '+' && s[0] != '-' && GroupedDecValue(s) == Some(m)
    ensures ParseDecInt(s) == Some(m)
    ensures ParseDecInt("+" + s) == Some(m)
    ensures ParseDecInt("-" + s) == Some(-(m as int))
  {
    assert ParseDecInt(s) == Some(m) by {
      assert Unsigned(s) == s;
    }
    var p := "+" + s;
    assert ParseDecInt(p) == Some(m) by {
      assert p[0] == '+' && p[1..] == s;
      assert Unsigned(p) == s;
    }
    var t := "-" + s;
    assert ParseDecInt(t) == Some(-(m as int)) by {
      assert t[0] == '-' && t[1..] == s;
      assert Unsigned(t) == s;
    }
  }

  /** `int(s, 16)` of a sign-free string is its magnitude. */
  lemma ParseHexUnsigned(s: string, m: nat)
    requires |s| > 0 && s[0] != '+' && s[0] != '-' && ParseHexMagnitude(s) == Some(m)
    ensures ParseHexInt(s) == Some(m)
    ensures ParseHexInt("-" + s) == Some(-(m as int))
  {
    assert ParseHexInt(s) == Some(m) by {
      assert Unsigned(s) == s;
    }
    var t := "-" + s;
    assert ParseHexInt(t) == Some(-(m as int)) by {
      assert t[0] == '-' && t[1..] == s;
      assert Unsigned(t) == s;
    }
  }

  /** Hex digits without a prefix read as their value. */
  lemma ParseHexOfDigits(h: string)
    requires |h| > 0 && AllHexDigits(h)
    ensures ParseHexInt(h) == Some(HexDigitsValue(h))
  {
    GroupedValueOfDigits(h);
    assert IsHexDigit(h[0]);
    if |h| >= 2 {
      assert IsHexDigit(h[1]);
    }
    HexBodyUnprefixed(h);
    ParseHexUnsigned(h, HexDigitsValue(h));
  }

  /** The magnitude of hex digits after a 0x/0X prefix is their value. */
  lemma MagnitudeOfPrefixed(h: string, x: char)
    requires |h| > 0 && AllHexDigits(h) && (x == 'x' || x == 'X')
    ensures ParseHexMagnitude(['0', x] + h) == Some(HexDigitsValue(h))
    ensures ParseHexMagnitude(['0', x, '_'] + h) == Some(HexDigitsValue(h))
  {
    GroupedValueOfDigits(h);
    assert IsHexDigit(h[0]);
    HexBodyPrefixed(h, x);
  }

  /** Hex digits after a 0x/0X prefix read as their value. */
  lemma ParseHexOfPrefixed(h: string, x: char)
    requires |h| > 0 && AllHexDigits(h) && (x == 'x' || x == 'X')
    ensures ParseHexInt(['0', x] + h) == Some(HexDigitsValue(h))
  {
    MagnitudeOfPrefixed(h, x);
    ParseHexUnsigned(['0', x] + h, HexDigitsValue(h));
  }

  /**
   * `int(s, 16)` reads back n in hex, bare or after a 0x/0X prefix; by
   * ParseHexUnsigned, a leading "-" negates each of these.
   */
  lemma ParseFormattedHex(n: nat)
    ensures ParseHexInt(HexDigits(n)) == Some(n)
    ensures ParseHexInt("0x" + HexDigits(n)) == Some(n)
    ensures ParseHexInt("0X" + HexDigits(n)) == Some(n)
  {
    var h := HexDigits(n);
    HexDigitsRoundTrip(n);
    ParseHexOfDigits(h);
    ParseHexOfPrefixed(h, 'x');
    ParseHexOfPrefixed(h, 'X');
    assert "0x" == ['0', 'x'] && "0X" == ['0', 'X'];
  }

  lemma {:induction false} DropUnderscoresAppend(x: string, y: string)
    ensures DropUnderscores(x + y) == DropUnderscores(x) + DropUnderscores(y)
    decreases |x|
  {
    if |x| > 0 {
      assert (x + y)[1..] == x[1..] + y;
      DropUnderscoresAppend(x[1..], y);
    } else {
      assert x + y == y;
    }
  }

  /** Two digit strings joined by one underscore keep the rule on underscores. */
  lemma JoinedDigitsGrouped(a: string, b: string)
    requires |a| > 0 && |b| > 0 && AllHexDigits(a) && AllHexDigits(b)
    ensures UnderscoresBetweenDigits(a + "_" + b)
  {
    var s := a + "_" + b;
    forall i | 0 <= i < |s| ensures s[i] == '_' <==> i == |a| {
      if i < |a| {
        assert s[i] == a[i] && IsHexDigit(a[i]);
      } else if i > |a| {
        assert s[i] == b[i - |a| - 1] && IsHexDigit(b[i - |a| - 1]);
      }
    }
  }

  /** Removing the underscore that joins two digit strings gives them back side by side. */
  lemma JoinedDigitsDrop(a: string, b: string)
    requires AllHexDigits(a) && AllHexDigits(b)
    ensures DropUnderscores(a + "_" + b) == a + b
  {
    DigitsHaveNoUnderscore(a);
    DigitsHaveNoUnderscore(b);
    DropUnderscoresAppend(a + "_", b);
    DropUnderscoresAppend(a, "_");
    assert DropUnderscores("_") == [];
    assert a + [] == a;
  }

  /** Reading digits joined by one underscore reads the digits without it. */
  lemma GroupedJoin(a: string, b: string)
    requires |a| > 0 && |b| > 0 && AllHexDigits(a) && AllHexDigits(b)
    ensures GroupedHexValue(a + "_" + b) == GroupedHexValue(a + b) != None
    ensures AllDecDigits(a) && AllDecDigits(b) ==>
      GroupedDecValue(a + "_" + b) == GroupedDecValue(a + b) != None
  {
    JoinedDigitsGrouped(a, b);
    JoinedDigitsDrop(a, b);
    assert AllHexDigits(a + b);
    GroupedValueOfDigits(a + b);
    assert GroupedHexValue(a + "_" + b) == Some(HexDigitsValue(a + b));
    if AllDecDigits(a) && AllDecDigits(b) {
      assert AllDecDigits(a + b);
      assert GroupedDecValue(a + "_" + b) == Some(DecDigitsValue(a + b));
    }
  }

  /** `int()` skips one underscore between digits: `int("2_048") == int("2048")`. */
  lemma ParseDecSkipsUnderscore(a: string, b: string)
    requires |a| > 0 && |b| > 0 && AllDecDigits(a) && AllDecDigits(b)
    ensures ParseDecInt(a + "_" + b) == ParseDecInt(a + b) != None
  {
    assert AllHexDigits(a) && AllHexDigits(b);
    GroupedJoin(a, b);
    assert (a + "_" + b)[0] == a[0] && (a + b)[0] == a[0];
  }

  /** `int(s, 16)` skips one underscore between digits: "7_F" reads as 0x7F. */
  lemma ParseHexSkipsUnderscore(a: string, b: string)
    requires |a| > 0 && |b| > 0 && AllHexDigits(a) && AllHexDigits(b)
    ensures ParseHexInt(a + "_" + b) == ParseHexInt(a + b) != None
  {
    GroupedJoin(a, b);
    var s, t := a + "_" + b, a + b;
    assert s[0] == a[0] && t[0] == a[0] && IsHexDigit(a[0]);
    assert HexBody(s) == s by {
      if |a| >= 2 {
        assert s[1] == a[1] && IsHexDigit(a[1]);
      }
      HexBodyUnprefixed(s);
    }
    assert HexBody(t) == t by {
      if |a| >= 2 {
        assert t[1] == a[1] && IsHexDigit(a[1]);
      } else {
        assert t[1] == b[0] && IsHexDigit(b[0]);
      }
      HexBodyUnprefixed(t);
    }
  }

  /** One underscore may follow the prefix: "0x_7F" reads as "0x7F" does. */
  lemma ParseHexSkipsPrefixUnderscore(a: string)
    requires |a| > 0 && AllHexDigits(a)
    ensures ParseHexInt("0x_" + a) == ParseHexInt("0x" + a) != None
  {
    MagnitudeOfPrefixed(a, 'x');
    assert "0x_" == ['0', 'x', '_'] && "0x" == ['0', 'x'];
    ParseHexUnsigned(['0', 'x'] + a, HexDigitsValue(a));
    ParseHexUnsigned(['0', 'x', '_'] + a, HexDigitsValue(a));
  }

  /** `int(x, 16) & 0x7F`, 0x7D for an empty answer or a ValueError. */
  function ManufacturerIdFromInput(answer: string): (id: Byte)
    ensures id < 0x80
    ensures Strip(answer) == [] ==> id == DEFAULT_MANUFACTURER_ID
    ensures ParseHexInt(Strip(answer)).None? ==> id == DEFAULT_MANUFACTURER_ID
    ensures Strip(answer) != [] && ParseHexInt(Strip(answer)).Some? ==>
      id == ParseHexInt(Strip(answer)).value % 0x80
  {
    var t := Strip(answer);
    if t == [] then DEFAULT_MANUFACTURER_ID
    else
      match ParseHexInt(t)
      case None => DEFAULT_MANUFACTURER_ID
      case Some(v) => v % 0x80
  }

  /** The maximum chunk: the answer when it is an integer in 256..8192, else 1024. */
  function MaxChunkFromInput(answer: string): (c: int)
    ensures 256 <= c <= 8192
    ensures var p := ParseDecInt(Strip(answer));
      c == (if Strip(answer) != [] && p.Some? && 256 <= p.value <= 8192 then p.value else DEFAULT_MAX_CHUNK)
  {
    var t := Strip(answer);
    if t == [] then DEFAULT_MAX_CHUNK
    else
      match ParseDecInt(t)
      case None => DEFAULT_MAX_CHUNK
      case Some(v) => if v < 256 || v > 8192 then DEFAULT_MAX_CHUNK else v
  }

  /** The encoded payload `main` sends for the literals of a file. */
  function FilePayload(tokens: seq<string>): (p: seq<Byte>)
    requires forall k :: 0 <= k < |tokens| ==> IsHexToken(tokens[k])
    ensures |p| == 5 * |tokens| && SevenBitClean(p)
  {
    EncodePayload(TokenValues(tokens))
  }

  /** From the encoding to the closing of the port. */
  method SendTokens(tokens: seq<string>, idAnswer: string, chunkAnswer: string, port: Port)
    returns (ok: bool)
    requires forall k :: 0 <= k < |tokens| ==> IsHexToken(tokens[k])
    modifies port
    ensures !port.isOpen
    ensures var full := FullMessage(ManufacturerIdFromInput(idAnswer), FilePayload(tokens));
      var chunk := ChunkSize(|full|, MaxChunkFromInput(chunkAnswer));
      && ok == (LadderOutcome(port.accepts, full, chunk) != AllFailed)
      && port.sent == old(port.sent) + LadderLog(port.accepts, full, chunk)
  {
    var data := HexToSysexBytes(tokens);
    assert data == FilePayload(tokens);
    port.Open();
    var id := ManufacturerIdFromInput(idAnswer);
    var maxChunk := MaxChunkFromInput(chunkAnswer);
    ghost var full := FullMessage(id, data);
    ghost var chunk := ChunkSize(|data| + 3, maxChunk);
    assert chunk == ChunkSize(|full|, maxChunk);
    ghost var before := port.sent;
    ok := SendSysex(port, data, id, maxChunk);
    ghost var log := LadderLog(port.accepts, full, chunk);
    assert port.sent == before + log;
    port.Close();
    assert port.sent == before + log;
  }

  /**
   * `main` once the file has been read and a port chosen: nothing is opened
   * or sent when the file yields no literal; otherwise the port is opened,
   * the ladder runs with the answers given, and the port is closed again.
   * The result is the ladder's verdict, `None` when nothing was attempted.
   */
  method Run(content: Option<string>, idAnswer: string, chunkAnswer: string, port: Port)
    returns (result: Option<bool>)
    modifies port
    ensures ParseHexFile(content).None? ==>
      result.None? && port.sent == old(port.sent) && port.isOpen == old(port.isOpen)
    ensures ParseHexFile(content).Some? ==>
      var full := FullMessage(ManufacturerIdFromInput(idAnswer), FilePayload(ParseHexFile(content).value));
      var chunk := ChunkSize(|full|, MaxChunkFromInput(chunkAnswer));
      && !port.isOpen
      && result == Some(LadderOutcome(port.accepts, full, chunk) != AllFailed)
      && port.sent == old(port.sent) + LadderLog(port.accepts, full, chunk)
  {
    var tokens := ParseHexFile(content);
    if tokens.None? {
      return None;
    }
    var ok := SendTokens(tokens.value, idAnswer, chunkAnswer, port);
    result := Some(ok);
  }
}
