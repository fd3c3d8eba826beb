/** Values shared by the shard machinery and both record indexes of the store. */
module Common {

  /** One byte of a shard file or of a serialized value. */
  newtype byte = x: int | 0 <= x < 256

  /** The keys the dense store accepts: Python integers and strings. */
  datatype Key = Int(i: int) | Str(s: string)

  /** Where one serialized value lives: shard id, byte offset in that shard, byte length. */
  datatype Triplet = Triplet(shard: nat, offset: nat, length: nat)

  /** The handle kept for an open shard: an append-mode file, or a file with a memory map over it. */
  datatype Mode = Write | Read

  /** The exceptions the store raises, by their Python names. */
  datatype Error = KeyError | IndexError | ValueError | TypeError | FileNotFoundError

  datatype Option<T> = None | Some(value: T)

  datatype Result<T> = Ok(value: T) | Err(error: Error)

  /** The result of an operation that returns nothing but may raise. */
  datatype Outcome = Pass | Fail(error: Error)

  function Min(a: nat, b: nat): nat { if a <= b then a else b }

  /** Python's `s[lo:hi]` for non-negative bounds: both bounds are clamped to the length. */
  function Slice<T>(s: seq<T>, lo: nat, hi: nat): (r: seq<T>)
    ensures lo <= hi <= |s| ==> r == s[lo..hi]
    ensures lo <= |s| < hi ==> r == s[lo..]
    ensures |s| < lo ==> r == []
  {
    var a := Min(lo, |s|);
    var b := Min(hi, |s|);
    if a <= b then s[a..b] else []
  }

  lemma SliceOfAppend<T>(a: seq<T>, b: seq<T>)
    ensures (a + b)[|a|..|a| + |b|] == b
  {
  }

  lemma UpdateTwice<K, V>(m: map<K, V>, k: K, a: V, b: V)
    ensures m[k := a][k := b] == m[k := b]
  {
  }
}
