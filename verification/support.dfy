/** Small shared vocabulary: optional values, the fixed-width integer types of
    the C++ source, and the two sequence searches (`indexOf` and `std::find` +
    `erase`) that the indexer and the symbol query both rely on. */
module Support {

  /** A value that may be absent (a null `shared_ptr`, a failed lookup). */
  datatype Option<+T> = None | Some(value: T)

  type uint16 = x: int | 0 <= x < 0x1_0000
  type uint32 = x: int | 0 <= x < 0x1_0000_0000
  type int32 = x: int | -0x8000_0000 <= x < 0x8000_0000
  type uint64 = x: int | 0 <= x < 0x1_0000_0000_0000_0000
  type byte = x: int | 0 <= x < 0x100

  /** `INT_MIN` of a 32-bit `int`. */
  const INT_MIN: int := -0x8000_0000

  /** Identifier of a file (`uint32_t fileId`); 0 means "no file". */
  type FileId = uint32

  /** A file-system path (`Path`, a `String`). */
  type Path = string

  /** A C++ `static_cast<uint32_t>` of an integer: reduction modulo 2^32. */
  function ToUint32(x: int): (r: uint32)
    ensures 0 <= x < 0x1_0000_0000 ==> r == x
    ensures (r - x) % 0x1_0000_0000 == 0
  {
    x % 0x1_0000_0000
  }

  /** A C++ `static_cast<int32_t>` of an integer: two's-complement wrap-around. */
  function ToInt32(x: int): (r: int32)
    ensures -0x8000_0000 <= x < 0x8000_0000 ==> r == x
    ensures (r - x) % 0x1_0000_0000 == 0
  {
    var u := x % 0x1_0000_0000;
    if u < 0x8000_0000 then u else u - 0x1_0000_0000
  }

  /** Position of the first occurrence of `x` in `s`, or -1 when there is none
      (`String::indexOf`, and `std::find` compared against `end()`). */
  function IndexOf<T(==)>(s: seq<T>, x: T): (i: int)
    ensures -1 <= i < |s|
    ensures i == -1 <==> x !in s
    ensures 0 <= i ==> s[i] == x && x !in s[..i]
  {
    if |s| == 0 then -1
    else if s[0] == x then 0
    else
      var j := IndexOf(s[1..], x);
      if j == -1 then -1
      else
        assert s[..j + 1] == [s[0]] + s[1..][..j];
        j + 1
  }

  /** An occurrence with none before it is the first occurrence. */
  lemma IndexOfAt<T>(s: seq<T>, x: T, p: nat)
    requires p < |s| && s[p] == x && x !in s[..p]
    ensures IndexOf(s, x) == p
  {
    assert s[p] in s;
  }

  /** `r` is `s` with the first occurrence of `x` erased, if there is one:
      putting `x` back at its first position in `s` gives `s` again. */
  ghost predicate ErasesFirst<T>(s: seq<T>, x: T, r: seq<T>)
  {
    var i := IndexOf(s, x);
    if i == -1 then r == s else |r| == |s| - 1 && s == r[..i] + [x] + r[i..]
  }

  /** `r` is `s` with position `i` (holding `x`) and position `j` (holding
      `y`) erased, where -1 stands for no position. */
  ghost predicate ErasesAt<T>(s: seq<T>, x: T, i: int, y: T, j: int, r: seq<T>)
  {
    && |r| == |s| - (if i == -1 then 0 else 1) - (if j == -1 then 0 else 1)
    && (i == -1 && j == -1 ==> r == s)
    && (0 <= i <= |r| && j == -1 ==> s == r[..i] + [x] + r[i..])
    && (i == -1 && 0 <= j <= |r| ==> s == r[..j] + [y] + r[j..])
    && (0 <= i < j <= |r| + 1 ==> s == r[..i] + [x] + r[i..j - 1] + [y] + r[j - 1..])
    && (0 <= j < i <= |r| + 1 ==> s == r[..j] + [y] + r[j..i - 1] + [x] + r[i - 1..])
  }

  /** `r` is `s` with the first `x` and the first `y` erased: putting each
      back at its first position in `s` gives `s` again. */
  ghost predicate ErasesFirstOfBoth<T>(s: seq<T>, x: T, y: T, r: seq<T>)
  {
    ErasesAt(s, x, IndexOf(s, x), y, IndexOf(s, y), r)
  }

  /** The second erasure, when the first `y` comes before the first `x`. */
  lemma SecondErasureBefore<T>(s: seq<T>, x: T, y: T, once: seq<T>, twice: seq<T>, i: nat, j: nat)
    requires j < i < |s| && |once| == |s| - 1 && s == once[..i] + [x] + once[i..]
    requires s[j] == y && y !in s[..j]
    requires ErasesFirst(once, y, twice)
    ensures |twice| == |s| - 2 && s == twice[..j] + [y] + twice[j..i - 1] + [x] + twice[i - 1..]
  {
    assert once[..j] == s[..j] && once[j] == y;
    IndexOfAt(once, y, j);
    assert once == twice[..j] + [y] + twice[j..];
    assert once[..i] == twice[..j] + [y] + twice[j..i - 1];
    assert once[i..] == twice[i - 1..];
  }

  /** The second erasure, when the first `y` comes after the first `x`. */
  lemma SecondErasureAfter<T>(s: seq<T>, x: T, y: T, once: seq<T>, twice: seq<T>, i: nat, j: nat)
    requires i < j < |s| && |once| == |s| - 1 && s == once[..i] + [x] + once[i..]
    requires s[j] == y && y !in s[..j]
    requires ErasesFirst(once, y, twice)
    ensures |twice| == |s| - 2 && s == twice[..i] + [x] + twice[i..j - 1] + [y] + twice[j - 1..]
  {
    FirstOccurrencePastErased(s, x, y, once, i, j);
    assert once == twice[..j - 1] + [y] + twice[j - 1..];
    ReinsertBefore(s, x, y, once, twice, i, j);
  }

  /** Erasing an earlier `x` moves the first `y` one place left. */
  lemma FirstOccurrencePastErased<T>(s: seq<T>, x: T, y: T, once: seq<T>, i: nat, j: nat)
    requires i < j < |s| && |once| == |s| - 1 && s == once[..i] + [x] + once[i..]
    requires s[j] == y && y !in s[..j]
    ensures IndexOf(once, y) == j - 1
  {
    var pre := once[..j - 1];
    assert pre == s[..i] + s[i + 1..j];
    assert y !in pre by {
      assert forall t :: 0 <= t < |pre| ==> pre[t] in s[..j];
    }
    assert once[j - 1] == y;
    IndexOfAt(once, y, j - 1);
  }

  /** Putting `y` back at `j - 1` and then `x` at `i < j` restores `s`. */
  lemma ReinsertBefore<T>(s: seq<T>, x: T, y: T, once: seq<T>, twice: seq<T>, i: nat, j: nat)
    requires i < j < |s| && |once| == |s| - 1 && s == once[..i] + [x] + once[i..]
    requires |twice| == |once| - 1 && once == twice[..j - 1] + [y] + twice[j - 1..]
    ensures s == twice[..i] + [x] + twice[i..j - 1] + [y] + twice[j - 1..]
  {
    assert once[..i] == twice[..i];
    assert once[i..] == twice[i..j - 1] + [y] + twice[j - 1..];
  }

  /** Erasing an element brings in nothing new. */
  lemma ErasingKeepsAbsent<T>(s: seq<T>, x: T, r: seq<T>, y: T)
    requires ErasesFirst(s, x, r) && y !in s
    ensures y !in r
  {
    var i := IndexOf(s, x);
    if i != -1 {
      forall t | 0 <= t < |r|
        ensures r[t] != y
      {
        if t < i {
          assert r[t] == s[t];
        } else {
          assert r[t] == s[t + 1];
        }
      }
    }
  }

  /** Erasing the first `x` and then the first `y` of what remains erases the
      first of each in the original sequence. */
  lemma ErasesFirstThenFirst<T>(s: seq<T>, x: T, y: T, once: seq<T>, twice: seq<T>)
    requires x != y && ErasesFirst(s, x, once) && ErasesFirst(once, y, twice)
    ensures ErasesFirstOfBoth(s, x, y, twice)
  {
    var i := IndexOf(s, x);
    var j := IndexOf(s, y);
    if i == -1 {
      assert once == s;
      if j == -1 {
        assert twice == s;
      } else {
        assert |twice| == |s| - 1 && s == twice[..j] + [y] + twice[j..];
      }
    } else if j == -1 {
      ErasingKeepsAbsent(s, x, once, y);
      assert IndexOf(once, y) == -1;
      assert twice == once;
      assert |twice| == |s| - 1 && s == twice[..i] + [x] + twice[i..];
    } else if j < i {
      SecondErasureBefore(s, x, y, once, twice, i, j);
    } else {
      assert s[i] == x && s[j] == y;
      SecondErasureAfter(s, x, y, once, twice, i, j);
    }
    assert ErasesAt(s, x, i, y, j, twice);
  }

  /** `std::find` followed by `erase`: drops the first occurrence of `x`, if any,
      and keeps every other element in order. */
  function RemoveFirst<T(==)>(s: seq<T>, x: T): (r: seq<T>)
    ensures x !in s ==> r == s
    ensures x in s ==> |r| == |s| - 1
    ensures x in s ==> var i := IndexOf(s, x); s == r[..i] + [x] + r[i..]
    ensures multiset(r) == multiset(s) - multiset{x}
    ensures ErasesFirst(s, x, r)
  {
    var i := IndexOf(s, x);
    if i == -1 then s
    else
      var r := s[..i] + s[i + 1..];
      ErasedAt(s, i, r);
      r
  }

  /** Dropping position `i` leaves the elements around it in place. */
  lemma ErasedAt<T>(s: seq<T>, i: nat, r: seq<T>)
    requires i < |s| && r == s[..i] + s[i + 1..]
    ensures |r| == |s| - 1 && s == r[..i] + [s[i]] + r[i..]
    ensures multiset(r) == multiset(s) - multiset{s[i]}
  {
    assert s == s[..i] + [s[i]] + s[i + 1..];
    assert r[..i] == s[..i] && r[i..] == s[i + 1..];
  }

  /** `a` can be obtained from `b` by deleting elements: an order-preserving
      embedding of the positions of `a` into those of `b`. */
  ghost predicate IsEmbedding<T>(idx: seq<int>, a: seq<T>, b: seq<T>)
  {
    && |idx| == |a|
    && (forall k :: 0 <= k < |idx| ==> 0 <= idx[k] < |b| && a[k] == b[idx[k]])
    && (forall k, l :: 0 <= k < l < |idx| ==> idx[k] < idx[l])
  }

  ghost predicate IsSubsequence<T>(a: seq<T>, b: seq<T>)
  {
    exists idx :: IsEmbedding(idx, a, b)
  }

  /** Some element of a non-empty sequence satisfies `p` exactly when some
      element before the last does, or the last does. */
  lemma SomeSatisfiesSnoc<T>(s: seq<T>, init: seq<T>, p: T -> bool)
    requires |s| > 0 && init == s[..|s| - 1]
    ensures (exists i :: 0 <= i < |s| && p(s[i]))
            <==> (exists i :: 0 <= i < |init| && p(init[i])) || p(s[|s| - 1])
  {
    assert forall i :: 0 <= i < |init| ==> init[i] == s[i];
  }
}
