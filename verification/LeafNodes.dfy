/**
 The size-indexed free list: for every size with a free region, the regions of that size, most
 recently freed last.  A size without free regions has no bucket.
 */
module LeafLists {
  import opened Basics
  import opened BestFit
  import opened DerivationTree

  type Buckets = map<nat, seq<UntypedId>>

  function Bucket(b: Buckets, size: nat): seq<UntypedId> {
    if size in b then b[size] else []
  }

  /** Setting a bucket, where an empty one is removed. */
  function WithBucket(b: Buckets, size: nat, ids: seq<UntypedId>): (r: Buckets)
    ensures forall s: nat :: Bucket(r, s) == if s == size then ids else Bucket(b, s)
    ensures ids != [] ==> r == b[size := ids]
  {
    if ids == [] then map s | s in b && s != size :: b[s] else b[size := ids]
  }

  predicate Holds(b: Buckets, id: UntypedId) {
    id in Bucket(b, id.bits)
  }

  /** Every bucket is non-empty and holds distinct regions of its own size, none above `top`. */
  ghost predicate Tidy(b: Buckets, top: nat) {
    forall s :: s in b ==>
      s <= top && b[s] != [] && NoDup(b[s]) && forall id :: id in b[s] ==> id.bits == s
  }

  /** How many free regions there are of each size up to `top`. */
  function CountsOf(b: Buckets, top: nat): (c: Counts)
    ensures |c| == top + 1
  {
    seq(top + 1, (s: nat) => |Bucket(b, s)|)
  }

  /** How many regions of a set there are of each size up to `top`. */
  ghost function CountsIn(ids: set<UntypedId>, top: nat): (c: Counts)
    ensures |c| == top + 1
  {
    seq(top + 1, (s: nat) => |set id | id in ids && id.bits == s|)
  }

  /** From `b` to `r`, one region of size `t` has become one of each size from `s` up to `t`. */
  ghost predicate Descended(b: Buckets, r: Buckets, s: nat, t: nat) {
    forall k: nat :: |Bucket(r, k)| == |Bucket(b, k)| + if k == t then -1 else if s <= k < t then 1 else 0
  }

  lemma DescendedNext(b: Buckets, r: Buckets, r': Buckets, s: nat, t: nat)
    requires Descended(b, r, s + 1, t) && s < t
    requires forall k: nat :: |Bucket(r', k)| == |Bucket(r, k)| + if k == s then 1 else 0
    ensures Descended(b, r', s, t)
  {}

  lemma DescendedCounts(b: Buckets, r: Buckets, top: nat, s: nat, t: nat)
    requires s <= t <= top && 0 < CountsOf(b, top)[t] && Descended(b, r, s, t)
    ensures CountsOf(r, top) == Served(CountsOf(b, top), s, t)
  {}

  function IndexOf(ids: seq<UntypedId>, id: UntypedId): (i: nat)
    requires id in ids
    ensures i < |ids| && ids[i] == id && id !in ids[..i]
  {
    if ids[0] == id then 0 else 1 + IndexOf(ids[1..], id)
  }

  function Without(ids: seq<UntypedId>, i: nat): seq<UntypedId>
    requires i < |ids|
  {
    ids[..i] + ids[i + 1..]
  }

  lemma WithoutMembers(ids: seq<UntypedId>, i: nat)
    requires NoDup(ids) && i < |ids|
    ensures NoDup(Without(ids, i))
    ensures forall id :: id in Without(ids, i) <==> id in ids && id != ids[i]
  {
    var rest := Without(ids, i);
    forall id | id in ids && id != ids[i] ensures id in rest {
      var k :| 0 <= k < |ids| && ids[k] == id;
      assert rest[if k < i then k else k - 1] == id;
    }
  }

  /** What removing the id at place `i` of a bucket does to membership. */
  lemma Removed(b: Buckets, top: nat, size: nat, i: nat, r: Buckets)
    requires Tidy(b, top) && size in b && i < |b[size]|
    requires r == WithBucket(b, size, Without(b[size], i))
    ensures Tidy(r, top)
    ensures forall id :: Holds(r, id) <==> Holds(b, id) && id != b[size][i]
  {
    WithoutMembers(b[size], i);
    assert b[size][i].bits == size by { assert b[size][i] in b[size]; }
    forall s | s in r ensures r[s] == Bucket(r, s) {}
  }

  lemma Added(b: Buckets, top: nat, id: UntypedId, r: Buckets)
    requires Tidy(b, top) && !Holds(b, id) && id.bits <= top
    requires r == WithBucket(b, id.bits, Bucket(b, id.bits) + [id])
    ensures Tidy(r, top)
    ensures forall x :: Holds(r, x) <==> Holds(b, x) || x == id
  {
    forall s | s in r ensures r[s] == Bucket(r, s) {}
  }

  /** The first place of an id in a bucket, compared by address only since the sizes agree. */
  method IndexByAddress(ids: seq<UntypedId>, id: UntypedId) returns (idx: nat)
    requires id in ids && forall x :: x in ids ==> x.bits == id.bits
    ensures idx == IndexOf(ids, id)
  {
    idx := 0;
    while ids[idx].paddr != id.paddr
      invariant idx < |ids| && idx <= IndexOf(ids, id)
      decreases |ids| - idx
    {
      idx := idx + 1;
    }
    assert ids[idx] in ids;
  }

  /** Bytes in blocks of fewer than 2^n bytes. */
  function BytesBelow(c: Counts, n: nat): nat
    requires n <= |c|
  {
    if n == 0 then 0 else BytesBelow(c, n - 1) + Power(2, n - 1) * c[n - 1]
  }

  lemma {:induction false} AllBytes(c: Counts, n: nat)
    requires n <= |c|
    ensures BytesBelow(c, n) + Power(2, n) * Units(c, n) == Units(c, 0)
  {
    if 0 < n {
      AllBytes(c, n - 1);
      UnitsInBytes(Power(2, n - 1), c[n - 1], Units(c, n));
    }
  }

  lemma UnitsInBytes(p: nat, a: nat, u: nat)
    ensures p * (a + 2 * u) == p * a + (2 * p) * u
  {}

  class LeafNodes {
    const top: nat
    var buckets: Buckets

    /** The regions on the list. */
    ghost var listed: set<UntypedId>

    ghost predicate Valid()
      reads this
    {
      Tidy(buckets, top) && forall id {:trigger Holds(buckets, id)} :: id in listed <==> Holds(buckets, id)
    }

    /** The buckets count the regions on the list. */
    lemma CountsListed()
      requires Valid()
      ensures CountsOf(buckets, top) == CountsIn(listed, top)
    {
      forall s | 0 <= s <= top ensures |Bucket(buckets, s)| == |set id | id in listed && id.bits == s| {
        NoDupSize(Bucket(buckets, s));
        forall id ensures id in Bucket(buckets, s) <==> id in listed && id.bits == s {
          assert id in listed <==> Holds(buckets, id);
        }
        assert (set id | id in Bucket(buckets, s)) == (set id | id in listed && id.bits == s);
      }
    }

    constructor (top: nat)
      ensures Valid() && this.top == top && buckets == map[] && listed == {}
    {
      this.top := top;
      buckets, listed := map[], {};
    }

    method AddLeaf(id: UntypedId)
      requires Valid() && id !in listed && id.bits <= top
      modifies this
      ensures Valid()
      ensures buckets == WithBucket(old(buckets), id.bits, Bucket(old(buckets), id.bits) + [id])
      ensures listed == old(listed) + {id}
    {
      if id.bits in buckets {
        buckets := buckets[id.bits := buckets[id.bits] + [id]];
      } else {
        buckets := buckets[id.bits := [id]];
      }
      assert [] + [id] == [id];
      Added(old(buckets), top, id, buckets);
      listed := listed + {id};
    }

    /** Pop the last region of the smallest sufficient size. */
    method GetLeaf(size: nat) returns (id: UntypedId)
      requires Valid() && Smallest(CountsOf(buckets, top), size).Some?
      modifies this
      ensures Valid()
      ensures id.bits == Smallest(CountsOf(old(buckets), top), size).value
      ensures id.bits in old(buckets) && id == old(buckets)[id.bits][|old(buckets)[id.bits]| - 1]
      ensures buckets == WithBucket(old(buckets), id.bits,
                                    Without(old(buckets)[id.bits], |old(buckets)[id.bits]| - 1))
      ensures id in old(listed) && listed == old(listed) - {id}
    {
      var found := size;
      if size !in buckets {
        found := 0;
        // The keys come in ascending order.
        var key := size + 1;
        while key <= top
          invariant size < key
          invariant found == 0
          invariant forall s :: size <= s < key ==> s !in buckets
        {
          if key in buckets {
            found := key;
            break;
          }
          key := key + 1;
        }
        assert found != 0;
      }
      ghost var t := Smallest(CountsOf(buckets, top), size).value;
      assert CountsOf(buckets, top)[found] > 0 && found == t;
      var ids := buckets[found];
      id := ids[|ids| - 1];
      assert id in ids && Holds(buckets, id);
      ids := ids[..|ids| - 1];
      assert ids == Without(buckets[found], |ids|);
      Removed(buckets, top, found, |ids|, WithBucket(buckets, found, ids));
      buckets := WithBucket(buckets, found, ids);
      listed := listed - {id};
    }

    method RemoveLeaf(id: UntypedId)
      requires Valid() && id in listed
      modifies this
      ensures Valid() && Holds(old(buckets), id)
      ensures buckets == WithBucket(old(buckets), id.bits,
                                    Without(old(buckets)[id.bits], IndexOf(old(buckets)[id.bits], id)))
      ensures listed == old(listed) - {id}
    {
      assert Holds(buckets, id);
      var idx := IndexByAddress(buckets[id.bits], id);
      Removed(buckets, top, id.bits, idx, WithBucket(buckets, id.bits, Without(buckets[id.bits], idx)));
      buckets := WithBucket(buckets, id.bits, Without(buckets[id.bits], idx));
      listed := listed - {id};
    }

    /** The bytes on the free list. */
    method ConsumableSpace() returns (bytes: nat)
      requires Valid()
      ensures bytes == Units(CountsOf(buckets, top), 0)
    {
      var c := CountsOf(buckets, top);
      bytes := 0;
      var size := 0;
      while size <= top
        invariant size <= top + 1
        invariant bytes == BytesBelow(c, size)
      {
        var count := |Bucket(buckets, size)|;  // a size without a bucket adds nothing
        assert count == c[size];
        bytes := bytes + Power(2, size) * count;
        size := size + 1;
      }
      AllBytes(c, top + 1);
    }
  }
}
