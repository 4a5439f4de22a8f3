/** The entries of a directory, 2/assign1/direntv6.h: 16 bytes each, two for the inode number and 14 for the name. */
module DirEntries {
  import opened Bytes

  const SLASH: byte := 47

  /** The bytes before the first NUL. */
  function CString(s: seq<byte>): (r: seq<byte>)
    ensures |r| <= |s| && (0 in s ==> |r| < |s|)
  {
    if s == [] || s[0] == 0 then [] else [s[0]] + CString(s[1..])
  }

  /** The 14 name bytes of entry k of a directory. */
  function NameBytes(f: seq<byte>, k: nat): seq<byte>
    requires 16 * (k + 1) <= |f|
  {
    f[16 * k + 2..16 * (k + 1)]
  }

  /** Every name of the directory ends with a NUL. */
  ghost predicate Terminated(f: seq<byte>)
  {
    forall k: nat :: 16 * (k + 1) <= |f| ==> 0 in NameBytes(f, k)
  }

  lemma CStringStep(n: seq<byte>, i: nat)
    requires i < |n|
    ensures CString(n[i..]) == if n[i] == 0 then [] else [n[i]] + CString(n[i + 1..])
  {
    assert n[i..][1..] == n[i + 1..];
  }

  const NAME_A: seq<byte> := [97]

  /** A directory that holds nothing but "a", inode 2. */
  const ONLY_A: seq<byte> := [2, 0, 97, 0, 0, 0, 0, 0, 0, 0, 0, 0, 0, 0, 0, 0]

  lemma OnlyA()
    ensures |ONLY_A| == 16 && CString(NameBytes(ONLY_A, 0)) == NAME_A && Terminated(ONLY_A)
  {
    var n := NameBytes(ONLY_A, 0);
    assert n[0] == 97 && n[1] == 0 && n[0..] == n;
    CStringStep(n, 0);
    CStringStep(n, 1);
    forall k: nat | 16 * (k + 1) <= |ONLY_A| ensures 0 in NameBytes(ONLY_A, k) {
      assert k == 0;
    }
  }
}
