/** The `strlcpy` that `config_kernel_sunxi_a133.h` provides for kernels without it. */
module Strlcpy {

  /** A buffer that holds a string: some element is the terminator. */
  ghost predicate Terminated(s: seq<char>) {
    '\0' in s
  }

  /** `strlen` */
  ghost function StrLen(s: seq<char>): (n: nat)
    requires Terminated(s)
    ensures n < |s| && s[n] == '\0' && '\0' !in s[..n]
  {
    if s[0] == '\0' then 0 else 1 + StrLen(s[1..])
  }

  /** The string in a buffer. */
  ghost function Text(s: seq<char>): seq<char>
    requires Terminated(s)
  {
    s[..StrLen(s)]
  }

  lemma TextUnique(s: seq<char>, n: nat)
    requires n < |s| && s[n] == '\0' && '\0' !in s[..n]
    ensures Terminated(s) && StrLen(s) == n && Text(s) == s[..n]
  {
    assert StrLen(s) == n;
  }

  method StrLenOf(src: array<char>) returns (n: nat)
    requires Terminated(src[..])
    ensures n == StrLen(src[..])
  {
    n := 0;
    while src[n] != '\0'
      invariant n <= StrLen(src[..])
      decreases StrLen(src[..]) - n
    {
      n := n + 1;
    }
    assert '\0' !in src[..n];
    TextUnique(src[..], n);
  }

  method MemCpy(dest: array<char>, src: array<char>, len: nat)
    requires dest != src && len <= dest.Length && len <= src.Length
    modifies dest
    ensures dest[..len] == src[..len] && dest[len..] == old(dest[len..])
  {
    var i := 0;
    while i < len
      invariant 0 <= i <= len
      invariant forall k :: 0 <= k < i ==> dest[k] == src[k]
      invariant forall k :: i <= k < dest.Length ==> dest[k] == old(dest[k])
    {
      dest[i] := src[i];
      i := i + 1;
    }
  }

  /** `pvr_compat_strlcpy`: `dest` has room for `size` elements at least. The result is the
      length of the source whatever the size, and it is below the size exactly when the whole
      string arrived. */
  method CompatStrlcpy(dest: array<char>, src: array<char>, size: nat) returns (srcLen: nat)
    requires Terminated(src[..]) && size <= dest.Length && dest != src
    modifies dest
    ensures srcLen == |Text(src[..])|
    ensures size == 0 ==> dest[..] == old(dest[..])
    ensures size > 0 ==>
              var n := if srcLen < size then srcLen else size - 1;
              && dest[..] == Text(src[..])[..n] + ['\0'] + old(dest[n + 1..])
              && Terminated(dest[..]) && Text(dest[..]) == Text(src[..])[..n]
    ensures size > 0 ==> Terminated(dest[..]) && (srcLen < size <==> Text(dest[..]) == Text(src[..]))
  {
    srcLen := StrLenOf(src);
    if size > 0 {
      var len := if srcLen >= size then size - 1 else srcLen;
      MemCpy(dest, src, len);
      ghost var rest := dest[len + 1..];
      assert rest == dest[len..][1..] == old(dest[len + 1..]);
      dest[len] := '\0';
      assert dest[..len] == Text(src[..])[..len];
      assert dest[..] == dest[..len] + ['\0'] + rest;
      TextUnique(dest[..], len);
    }
  }
}
