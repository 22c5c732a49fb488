/**
 * `copy_string` of `utils.c`: a bounded copy of a NUL-terminated string
 * into a buffer of `length` chars, always terminated when `length > 0`.
 */
module StringUtils {
  import opened Common

  const NUL: char := '\0'

  /** The C string held by a char buffer: its chars before the first NUL. */
  function CString(s: seq<char>): (r: seq<char>)
    ensures |r| <= |s|
  {
    if s == [] || s[0] == NUL then [] else [s[0]] + CString(s[1..])
  }

  /** The C string is a prefix of the buffer free of NUL, ended by a NUL or by the buffer's end. */
  lemma {:induction false} CStringPrefix(s: seq<char>)
    ensures CString(s) == s[..|CString(s)|]
    ensures NUL !in CString(s)
    ensures |CString(s)| < |s| ==> s[|CString(s)|] == NUL
  {
    if s != [] && s[0] != NUL {
      CStringPrefix(s[1..]);
      assert CString(s) == [s[0]] + CString(s[1..]);
    }
  }

  /** The number of chars `copy_string` copies: the string, cut at `length - 1`. */
  function CopyLength(source: seq<char>, length: nat): nat
    requires length > 0
  {
    Min(|CString(source)|, length - 1)
  }

  /**
   * What the source demands: `strncat` reads `source` up to its NUL or
   * `length - 1` chars, whichever comes first, and `dest` holds the copy
   * and its terminator.
   */
  predicate CanCopy(dest: seq<char>, source: seq<char>, length: nat) {
    length > 0 ==>
      (NUL in source || length - 1 <= |source|) && CopyLength(source, length) < |dest|
  }

  /** The buffer after `copy_string(dest, source, length)`. */
  function Copied(dest: seq<char>, source: seq<char>, length: nat): (r: seq<char>)
    requires CanCopy(dest, source, length)
    ensures |r| == |dest|
  {
    if length == 0 then dest
    else
      var k := CopyLength(source, length);
      source[..k] + [NUL] + dest[k + 1..]
  }

  /**
   * The copy holds the longest prefix of the source string shorter than
   * `length`: a prefix of it, cut only where `length` runs out.
   */
  lemma CopiedIsTruncation(dest: seq<char>, source: seq<char>, length: nat)
    requires length > 0 && CanCopy(dest, source, length)
    ensures CString(Copied(dest, source, length)) == CString(source)[..CopyLength(source, length)]
    ensures |CString(Copied(dest, source, length))| < length
    ensures CString(Copied(dest, source, length)) <= CString(source)
    ensures |CString(Copied(dest, source, length))| < |CString(source)| ==> |CString(Copied(dest, source, length))| == length - 1
  {
    var k := CopyLength(source, length);
    var r := Copied(dest, source, length);
    var c := CString(source);
    CStringPrefix(source);
    assert r[..k] == c[..k];
    CStringOfTerminated(r, k);
  }

  /** A buffer whose first k chars are not NUL and whose char k is NUL holds a string of length k. */
  lemma {:induction false} CStringOfTerminated(s: seq<char>, k: nat)
    requires k < |s| && s[k] == NUL && NUL !in s[..k]
    ensures CString(s) == s[..k]
  {
    if k > 0 {
      assert s[0] in s[..k];
      assert s[1..][..k - 1] == s[1..k];
      assert forall c :: c in s[1..k] ==> c in s[..k];
      CStringOfTerminated(s[1..], k - 1);
      assert s[..k] == [s[0]] + s[1..k];
    }
  }

  /** A zero length leaves the buffer as it was. */
  lemma CopyNothing(dest: seq<char>, source: seq<char>)
    ensures Copied(dest, source, 0) == dest
  {
  }

  /** A buffer with no NUL in its first k chars holds a string of at least k chars. */
  lemma {:induction false} CStringAtLeast(s: seq<char>, k: nat)
    requires k <= |s| && forall j :: 0 <= j < k ==> s[j] != NUL
    ensures |CString(s)| >= k
  {
    if k > 0 {
      CStringAtLeast(s[1..], k - 1);
    }
  }

  /** Where the copy loop stops: after exactly `CopyLength` chars. */
  lemma CopyStops(source: seq<char>, length: nat, i: nat)
    requires length > 0 && i <= length - 1 && i <= |source|
    requires forall j :: 0 <= j < i ==> source[j] != NUL
    requires i == length - 1 || i == |source| || source[i] == NUL
    ensures i == CopyLength(source, length)
  {
    CStringAtLeast(source, i);
    if i < |source| && source[i] == NUL {
      assert forall c :: c in source[..i] ==> c != NUL;
      CStringOfTerminated(source, i);
    }
  }

  /**
   * `copy_string`: empties `dest`, then appends chars of `source` until its
   * NUL or `length - 1` chars, then the terminator.
   */
  method CopyString(dest: array<char>, source: seq<char>, length: nat)
    requires length < TWO_32 && CanCopy(dest[..], source, length)
    modifies dest
    ensures dest[..] == Copied(old(dest[..]), source, length)
  {
    if length > 0 {
      dest[0] := NUL;
      var n := AppendChars(dest, source, length);
      dest[n] := NUL;
      assert dest[..] == source[..n] + [NUL] + old(dest[..])[n + 1..];
    }
  }

  /**
   * The `strncat` of `copy_string` into the emptied buffer: chars of
   * `source` written from the start until its NUL or `length - 1` chars.
   */
  method AppendChars(dest: array<char>, source: seq<char>, length: nat) returns (n: nat)
    requires length > 0 && CopyLength(source, length) < dest.Length
    modifies dest
    ensures n == CopyLength(source, length) < dest.Length
    ensures dest[..] == source[..n] + old(dest[..])[n..]
  {
    ghost var k := CopyLength(source, length);
    ghost var d := dest[..];
    n := 0;
    while n < length - 1 && n < |source| && source[n] != NUL
      invariant n <= length - 1 && n <= |source| && n <= k
      invariant forall j :: 0 <= j < n ==> source[j] != NUL
      invariant forall j :: 0 <= j < n ==> dest[j] == source[j]
      invariant forall j :: n <= j < dest.Length ==> dest[j] == d[j]
    {
      CStringAtLeast(source, n + 1);
      dest[n] := source[n];
      n := n + 1;
    }
    CopyStops(source, length, n);
    assert dest[..] == source[..n] + d[n..];
  }
}
