/**
 Shared vocabulary of the model: optional values, the two things a JavaScript
 `throw` can carry, a result type for operations that may throw, and
 flattening of nested sequences.
 */
module Base {

  /** A value that may be absent (`undefined` / `null` in the source). */
  datatype Option<+T> = None | Some(value: T)

  /** What a `throw` carries: an `Error` with a message, or some other value. */
  datatype Fault = Error(message: string) | NonError

  /** The outcome of an operation that either returns a value or throws. */
  datatype Result<+T> = Success(value: T) | Failure(fault: Fault)

  /** Concatenation of a sequence of sequences, in order. */
  function Flatten<T>(ss: seq<seq<T>>): (r: seq<T>)
    decreases |ss|
  {
    if |ss| == 0 then [] else Flatten(ss[..|ss| - 1]) + ss[|ss| - 1]
  }

  lemma {:induction false} FlattenAppend<T>(a: seq<seq<T>>, b: seq<seq<T>>)
    ensures Flatten(a + b) == Flatten(a) + Flatten(b)
    decreases |b|
  {
    if |b| == 0 {
      assert a + b == a;
    } else {
      var b' := b[..|b| - 1];
      assert (a + b)[..|a + b| - 1] == a + b';
      FlattenAppend(a, b');
    }
  }

  /** Every element of every part is an element of the flattening. */
  lemma {:induction false} FlattenContains<T>(ss: seq<seq<T>>, i: nat, j: nat)
    requires i < |ss| && j < |ss[i]|
    ensures ss[i][j] in Flatten(ss)
    decreases |ss|
  {
    if i < |ss| - 1 {
      FlattenContains(ss[..|ss| - 1], i, j);
    } else {
      assert Flatten(ss)[|Flatten(ss[..|ss| - 1])| + j] == ss[i][j];
    }
  }

  /** Each part sits in the flattening as one slice. */
  lemma {:induction false} FlattenSlice<T>(ss: seq<seq<T>>, i: nat) returns (a: nat, b: nat)
    requires i < |ss|
    ensures a <= b <= |Flatten(ss)| && Flatten(ss)[a..b] == ss[i]
    decreases |ss|
  {
    var init := ss[..|ss| - 1];
    if i < |ss| - 1 {
      a, b := FlattenSlice(init, i);
      assert init[i] == ss[i];
      assert Flatten(ss)[a..b] == Flatten(init)[a..b];
    } else {
      a, b := |Flatten(init)|, |Flatten(ss)|;
    }
  }

  /** Extending the last part extends the flattening by the same elements. */
  lemma FlattenExtendLast<T>(ss: seq<seq<T>>, x: seq<T>)
    requires |ss| > 0
    ensures Flatten(ss[..|ss| - 1] + [ss[|ss| - 1] + x]) == Flatten(ss) + x
  {
    var t := ss[..|ss| - 1] + [ss[|ss| - 1] + x];
    assert t[..|t| - 1] == ss[..|ss| - 1];
  }

  lemma FlattenSingle<T>(s: seq<T>)
    ensures Flatten([s]) == s
  {
    assert [s][..0] == [];
  }

  /** Adjacent slices concatenate to the slice spanning both. */
  lemma SliceConcat<T>(s: seq<T>, a: nat, b: nat, c: nat)
    requires a <= b <= c <= |s|
    ensures s[a..b] + s[b..c] == s[a..c]
  {
  }

  /** A slice of a suffix is a slice of the whole. */
  lemma SliceOfSuffix<T>(s: seq<T>, e: nat, a: nat, b: nat)
    requires e <= |s| && a <= b <= |s| - e
    ensures s[e..][a..b] == s[e + a..e + b]
    ensures s[e..][a..] == s[e + a..]
  {
  }

  /** Concatenation is associative and has the empty sequence as unit. */
  lemma ConcatAssoc<T>(a: seq<T>, b: seq<T>, c: seq<T>)
    ensures a + (b + c) == (a + b) + c
    ensures [] + a == a && a + [] == a
  {
  }
}
