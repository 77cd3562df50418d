/** The two-level whitelist tables: freezer/module/freezer_hook_utils.c,
    `WHITELIST FUNCTIONS`. */
module Whitelists {
  import opened CTypes
  import opened LockTables
  import GrowableArray

  /** What one live bucket holds. The tables store string pointers (`T` is CString);
      the policy is stated over the characters (`T` is CText). */
  datatype Entry<T> = Entry(uid: uint32, items: seq<T>)

  function IndexOf<T>(es: seq<Entry<T>>, uid: uint32): (k: nat)
    ensures k <= |es| && (k < |es| ==> es[k].uid == uid)
    ensures forall i | 0 <= i < k :: es[i].uid != uid
  {
    if es == [] then 0
    else if es[0].uid == uid then 0
    else
      var k := IndexOf(es[1..], uid);
      assert forall i | 0 < i < k + 1 :: es[i] == es[1..][i - 1];
      k + 1
  }

  /** The live buckets after WHITELIST. A full table takes nothing, not even for a uid
      that already has a bucket. */
  function Store<T>(es: seq<Entry<T>>, uid: uint32, item: T): seq<Entry<T>> {
    var k := IndexOf(es, uid);
    if |es| >= MAX_SIZE_ARRAY then es
    else if k < |es| then es[k := Entry(uid, es[k].items + [item])]
    else es + [Entry(uid, [item])]
  }

  /** Storing renames no bucket and opens at most one, for the uid itself. */
  lemma StoreKeepsBuckets<T>(es: seq<Entry<T>>, uid: uint32, item: T)
    ensures |es| <= |Store(es, uid, item)| <= |es| + 1
    ensures forall i | 0 <= i < |Store(es, uid, item)| ::
              Store(es, uid, item)[i].uid == if i < |es| then es[i].uid else uid
  {
  }

  /** Some string stored for the uid has the requested one as a prefix. */
  ghost predicate Admits(es: seq<Entry<CString>>, uid: uint32, requested: CText) {
    exists i, k | 0 <= i < |es| && 0 <= k < |es[i].items| :: es[i].uid == uid && requested <= es[i].items[k].text
  }

  ghost predicate UniqueUids<T>(es: seq<Entry<T>>) {
    forall i, j | 0 <= i < j < |es| :: es[i].uid != es[j].uid
  }

  ghost predicate Holds<T>(es: seq<Entry<T>>, uid: uint32, item: T) {
    exists i | 0 <= i < |es| :: es[i].uid == uid && item in es[i].items
  }

  /** The bucket of a uid, if there is one that takes strings, takes one more before its 32-bit
      capacity wraps. */
  ghost predicate BucketHasRoom<T>(es: seq<Entry<T>>, uid: uint32) {
    |es| < MAX_SIZE_ARRAY ==>
      forall i | 0 <= i < |es| && es[i].uid == uid :: |es[i].items| < GrowableArray.DEFAULT_LIMIT
  }

  /** No string object is stored twice, in one bucket or in two. */
  ghost predicate NoAliases(es: seq<Entry<CString>>) {
    forall i, j, k, l |
      0 <= i < |es| && 0 <= j < |es| && 0 <= k < |es[i].items| && 0 <= l < |es[j].items| &&
      es[i].items[k] == es[j].items[l] :: i == j && k == l
  }

  ghost predicate Stores(es: seq<Entry<CString>>, item: CString) {
    exists i | 0 <= i < |es| :: item in es[i].items
  }

  ghost predicate Separate(a: seq<Entry<CString>>, b: seq<Entry<CString>>) {
    forall i, k | 0 <= i < |a| && 0 <= k < |a[i].items| :: !Stores(b, a[i].items[k])
  }

  /** A slot after storing is an old slot, or the one new slot at the end of the
      uid's bucket. */
  lemma StoredSlot(es: seq<Entry<CString>>, uid: uint32, item: CString, i: int, k: int)
    requires 0 <= i < |Store(es, uid, item)| && 0 <= k < |Store(es, uid, item)[i].items|
    ensures var after := Store(es, uid, item);
            || (i < |es| && k < |es[i].items| && after[i].items[k] == es[i].items[k] && es[i].items[k] in es[i].items)
            || (i == IndexOf(es, uid) && (i < |es| ==> k == |es[i].items|) && (i == |es| ==> k == 0) &&
                after[i].items[k] == item)
  {
    var at := IndexOf(es, uid);
    if |es| < MAX_SIZE_ARRAY && i == at {
      if i < |es| {
        assert Store(es, uid, item)[i].items == es[i].items + [item];
      }
    }
  }

  /** Storing a string object that is nowhere yet keeps every string stored once. */
  lemma StoreKeepsOwnership(es: seq<Entry<CString>>, uid: uint32, item: CString)
    requires NoAliases(es) && !Stores(es, item)
    ensures NoAliases(Store(es, uid, item))
    ensures forall x: CString :: Stores(Store(es, uid, item), x) ==> Stores(es, x) || x == item
  {
    var after := Store(es, uid, item);
    forall i, j, k, l |
      0 <= i < |after| && 0 <= j < |after| && 0 <= k < |after[i].items| && 0 <= l < |after[j].items| &&
      after[i].items[k] == after[j].items[l]
      ensures i == j && k == l
    {
      StoredSlot(es, uid, item, i, k);
      StoredSlot(es, uid, item, j, l);
    }
    forall x: CString | Stores(after, x)
      ensures Stores(es, x) || x == item
    {
      var i :| 0 <= i < |after| && x in after[i].items;
      var k :| 0 <= k < |after[i].items| && after[i].items[k] == x;
      StoredSlot(es, uid, item, i, k);
    }
  }

  lemma StoreKeepsSeparation(a: seq<Entry<CString>>, b: seq<Entry<CString>>, uid: uint32, item: CString)
    requires Separate(a, b) && !Stores(b, item)
    ensures Separate(Store(a, uid, item), b)
  {
    var after := Store(a, uid, item);
    forall i, k | 0 <= i < |after| && 0 <= k < |after[i].items|
      ensures !Stores(b, after[i].items[k])
    {
      StoredSlot(a, uid, item, i, k);
    }
  }

  lemma SeparateSymmetric(a: seq<Entry<CString>>, b: seq<Entry<CString>>)
    requires Separate(a, b)
    ensures Separate(b, a)
  {
    forall i, k, j, l | 0 <= i < |b| && 0 <= k < |b[i].items| && 0 <= j < |a| && 0 <= l < |a[j].items|
      ensures b[i].items[k] != a[j].items[l]
    {
      assert !Stores(b, a[j].items[l]);
      assert b[i].items[k] in b[i].items;
    }
  }

  ghost predicate NoRepeats(freed: seq<object>) {
    forall i, j | 0 <= i < j < |freed| :: freed[i] != freed[j]
  }

  lemma NoRepeatsConcat(a: seq<object>, b: seq<object>)
    requires NoRepeats(a) && NoRepeats(b)
    requires forall o | o in a :: o !in b
    ensures NoRepeats(a + b)
  {
    forall i, j | 0 <= i < j < |a + b|
      ensures (a + b)[i] != (a + b)[j]
    {
      if i < |a| <= j {
        assert a[i] in a && b[j - |a|] in b;
      }
    }
  }

  class Bucket {
    const uid: uint32
    const items: GrowableArray.Array

    constructor (uid: uint32, items: GrowableArray.Array)
      ensures this.uid == uid && this.items == items
    {
      this.uid := uid;
      this.items := items;
    }
  }

  /** The array record and the block behind one bucket. */
  datatype Allocation = Allocation(items: GrowableArray.Array, block: array<CString?>)

  ghost predicate Unshared(a: seq<Allocation>) {
    forall i, j | 0 <= i < j < |a| :: a[i].items != a[j].items && a[i].block != a[j].block
  }

  lemma UpdateKeepsUnshared(a: seq<Allocation>, cur: int, next: Allocation)
    requires Unshared(a) && 0 <= cur < |a| && next.items == a[cur].items
    requires forall i | 0 <= i < |a| && i != cur :: a[i].block != next.block
    ensures Unshared(a[cur := next])
  {
  }

  lemma AppendKeepsUnshared(a: seq<Allocation>, next: Allocation)
    requires Unshared(a)
    requires forall i | 0 <= i < |a| :: a[i].items != next.items && a[i].block != next.block
    ensures Unshared(a + [next])
  {
  }

  /** What disposing a bucket frees: its strings, its block, its array record. */
  ghost function BucketStorage(entry: Entry<CString>, a: Allocation): seq<object> {
    entry.items + [a.block, a.items]
  }

  /** What disposing the first `n` buckets frees. */
  ghost function StorageOf(es: seq<Entry<CString>>, a: seq<Allocation>, n: nat): seq<object>
    requires n <= |es| == |a|
  {
    if n == 0 then [] else StorageOf(es, a, n - 1) + BucketStorage(es[n - 1], a[n - 1])
  }

  lemma {:induction false} StorageHolds(es: seq<Entry<CString>>, a: seq<Allocation>, n: nat, o: object)
    requires n <= |es| == |a|
    ensures o in StorageOf(es, a, n) <==> exists i | 0 <= i < n :: o in BucketStorage(es[i], a[i])
  {
    if n > 0 {
      StorageHolds(es, a, n - 1, o);
    }
  }

  /** Among all the pointers allocated for the first `n` buckets, none occurs twice. */
  lemma {:induction false} StorageOnce(es: seq<Entry<CString>>, a: seq<Allocation>, n: nat)
    requires n <= |es| == |a| && NoAliases(es) && Unshared(a)
    ensures NoRepeats(StorageOf(es, a, n))
  {
    if n > 0 {
      var last := n - 1;
      StorageOnce(es, a, last);
      assert NoRepeats(BucketStorage(es[last], a[last])) by {
        assert forall k, l | 0 <= k < l < |es[last].items| :: es[last].items[k] != es[last].items[l];
      }
      forall o | o in StorageOf(es, a, last)
        ensures o !in BucketStorage(es[last], a[last])
      {
        StorageHolds(es, a, last, o);
        var i :| 0 <= i < last && o in BucketStorage(es[i], a[i]);
        assert forall k, l | 0 <= k < |es[i].items| && 0 <= l < |es[last].items| :: es[i].items[k] != es[last].items[l];
        DisjointBuckets(es[i], a[i], es[last], a[last], o);
      }
      NoRepeatsConcat(StorageOf(es, a, last), BucketStorage(es[last], a[last]));
    }
  }

  lemma DisjointBuckets(e: Entry<CString>, a: Allocation, e': Entry<CString>, a': Allocation, o: object)
    requires a.items != a'.items && a.block != a'.block
    requires forall k | 0 <= k < |e.items| :: e.items[k] !in e'.items
    requires o in BucketStorage(e, a)
    ensures o !in BucketStorage(e', a')
  {
  }

  /** A new bucket holding one string. */
  method NewBucket(resourceData: CString, uid: uint32) returns (bucket: Bucket)
    ensures fresh(bucket) && fresh(bucket.items) && fresh(bucket.items.data)
    ensures bucket.uid == uid && bucket.items.initial == GrowableArray.DEFAULT_CAPACITY
    ensures bucket.items.Valid() && bucket.items.Contents() == [resourceData]
  {
    var items := new GrowableArray.Array.WithCapacity(GrowableArray.DEFAULT_CAPACITY);
    GrowableArray.DefaultCapacityLimit(0);
    items.Push(resourceData);
    bucket := new Bucket(uid, items);
  }

  /** What a lookup comes to: an answer, or a null pointer handed to `strlen`. */
  datatype Lookup = NotListed | Listed | NullRead

  class WhitelistTable {
    const slots: array<Bucket?>
    var index: int
    ghost var stored: seq<Entry<CString>>
    ghost var allocations: seq<Allocation>
    ghost var Repr: set<object>

    /** A live slot: a bucket whose growable array is well formed and holds `entry`. */
    ghost predicate Live(i: int, entry: Entry<CString>, a: Allocation)
      requires 0 <= i < slots.Length
      reads this, slots, Repr
    {
      && slots[i] != null
      && slots[i].uid == entry.uid && slots[i].items == a.items
      && a.items in Repr && a.items.data == a.block && a.block in Repr && a.block as object != slots
      && a.items.Valid() && a.items.initial == GrowableArray.DEFAULT_CAPACITY
      && a.items.Contents() == entry.items
    }

    ghost predicate Valid()
      reads this, Repr
      ensures Valid() ==> this in Repr && slots in Repr
    {
      && this in Repr && slots in Repr
      && slots.Length == MAX_SIZE_ARRAY
      && 0 <= index <= MAX_SIZE_ARRAY
      && |stored| == |allocations| == index
      && (forall i | 0 <= i < index :: Live(i, stored[i], allocations[i]))
      && UniqueUids(stored) && Unshared(allocations)
    }

    constructor ()
      ensures Valid() && fresh(Repr) && stored == []
    {
      slots := new Bucket?[MAX_SIZE_ARRAY](_ => null);
      index := 0;
      stored, allocations := [], [];
      Repr := {this, slots};
    }

    /** `add_to_whitelist` */
    method Add(resourceData: CString, uid: uint32) returns (res: int)
      requires Valid() && BucketHasRoom(stored, uid)
      modifies Repr
      ensures Valid() && fresh(Repr - old(Repr))
      ensures stored == Store(old(stored), uid, resourceData)
      ensures |old(stored)| >= 1024 ==> stored == old(stored)
      ensures forall i | 0 <= i < |old(stored)| < 1024 && old(stored)[i].uid == uid ::
                stored == old(stored)[i := Entry(uid, old(stored)[i].items + [resourceData])]
      ensures |old(stored)| < 1024 && (forall i | 0 <= i < |old(stored)| :: old(stored)[i].uid != uid) ==>
                stored == old(stored) + [Entry(uid, [resourceData])]
      ensures res == if |old(stored)| >= MAX_SIZE_ARRAY then 0 else 1
    {
      var cur := 0;

      if index >= MAX_SIZE_ARRAY {
        return 0;
      }

      while cur < index
        invariant 0 <= cur <= index
        invariant forall i | 0 <= i < cur :: stored[i].uid != uid
        modifies {}
      {
        assert Live(cur, stored[cur], allocations[cur]);
        if slots[cur].uid == uid {
          break;
        }

        cur := cur + 1;
      }

      if cur < index {
        PushInto(cur, resourceData);
        return 1;
      }

      AppendBucket(resourceData, uid);
      return 1;
    }

    /** The new bucket of a uid that has none yet. */
    method AppendBucket(resourceData: CString, uid: uint32)
      requires Valid() && index < MAX_SIZE_ARRAY
      requires forall i | 0 <= i < index :: stored[i].uid != uid
      modifies this, slots
      ensures Valid() && fresh(Repr - old(Repr))
      ensures stored == old(stored) + [Entry(uid, [resourceData])]
    {
      var bucket := NewBucket(resourceData, uid);
      PutBucket(bucket, resourceData);
    }

    /** `array[*index] = new_array_uid; *index = *index + 1` */
    method PutBucket(bucket: Bucket, ghost item: CString)
      requires Valid() && index < MAX_SIZE_ARRAY
      requires forall i | 0 <= i < index :: stored[i].uid != bucket.uid
      requires bucket.items !in Repr && bucket.items.data !in Repr
      requires bucket.items.Valid() && bucket.items.Contents() == [item]
      requires bucket.items.initial == GrowableArray.DEFAULT_CAPACITY
      modifies this, slots
      ensures Valid() && Repr == old(Repr) + {bucket.items, bucket.items.data}
      ensures stored == old(stored) + [Entry(bucket.uid, [item])]
    {
      forall i | 0 <= i < index
        ensures allocations[i].items != bucket.items && allocations[i].block != bucket.items.data
      {
        assert Live(i, stored[i], allocations[i]);
      }
      AppendKeepsUnshared(allocations, Allocation(bucket.items, bucket.items.data));
      slots[index] := bucket;
      index := index + 1;
      stored := stored + [Entry(bucket.uid, [item])];
      allocations := allocations + [Allocation(bucket.items, bucket.items.data)];
      Repr := Repr + {bucket.items, bucket.items.data};

      assert Live(index - 1, stored[index - 1], allocations[index - 1]);
      forall i | 0 <= i < index - 1
        ensures Live(i, stored[i], allocations[i])
      {
        assert old(Live(i, stored[i], allocations[i]));
      }
    }

    /** `array_push` into the growable array of bucket `cur`. */
    method PushInto(cur: int, resourceData: CString)
      requires Valid() && 0 <= cur < index
      requires |stored[cur].items| < GrowableArray.DEFAULT_LIMIT
      modifies Repr
      ensures Valid() && fresh(Repr - old(Repr)) && index == old(index)
      ensures stored == old(stored)[cur := Entry(old(stored)[cur].uid, old(stored)[cur].items + [resourceData])]
    {
      assert Live(cur, stored[cur], allocations[cur]);
      var items := slots[cur].items;
      GrowableArray.DefaultCapacityLimit(items.size);
      label before:
      items.Push(resourceData);
      forall i | 0 <= i < index && i != cur
        ensures allocations[i].block != items.data
      {
        assert old@before(Live(i, stored[i], allocations[i]));
      }
      Repr := Repr + {items.data};
      stored := stored[cur := Entry(stored[cur].uid, stored[cur].items + [resourceData])];
      UpdateKeepsUnshared(allocations, cur, Allocation(items, items.data));
      allocations := allocations[cur := Allocation(items, items.data)];

      forall i | 0 <= i < index
        ensures Live(i, stored[i], allocations[i])
      {
        assert old@before(Live(i, stored[i], allocations[i]));
      }
    }

    /** `resource_data_is_in_whitelist`: it stops at the first bucket of the caller, and
        still decides whether *any* pair (caller, string) stored anywhere in the table has
        the requested string as a prefix. A null pointer is read only when the caller has a
        string to compare it with. */
    method Contains(resourceData: Option<CText>, origUid: int32) returns (res: Lookup)
      requires Valid()
      ensures res == if !(exists i, k | 0 <= i < |stored| && 0 <= k < |stored[i].items| ::
                            stored[i].uid == AsUnsigned(origUid) &&
                            TextOf(resourceData) <= stored[i].items[k].text) then NotListed
                     else if resourceData.Some? then Listed else NullRead
    {
      var cur := 0;

      while cur < index
        invariant 0 <= cur <= index
        invariant forall i | 0 <= i < cur :: stored[i].uid != AsUnsigned(origUid)
      {
        assert Live(cur, stored[cur], allocations[cur]);
        if slots[cur].uid == AsUnsigned(origUid) {
          var items := slots[cur].items;
          var i := 0;

          while i < items.size
            invariant 0 <= i <= items.size
            invariant forall k | 0 <= k < i :: !(TextOf(resourceData) <= stored[cur].items[k].text)
          {
            assert items.data[i] == stored[cur].items[i];
            if resourceData.None? {
              assert [] <= stored[cur].items[i].text;
              return NullRead;
            }
            var requested := resourceData.value;
            StrncmpIsPrefixTest(items.data[i].text, requested);
            if Strncmp(items.data[i].text, requested, |requested|) == 0 {
              return Listed;
            }
            i := i + 1;
          }

          return NotListed;
        }

        cur := cur + 1;
      }
      return NotListed;
    }

    /** Everything allocated for the table, bucket by bucket, but not the bucket records. */
    ghost function Storage(): seq<object>
      reads this
      requires |stored| == |allocations|
    {
      StorageOf(stored, allocations, |stored|)
    }

    /** A string, a block or an array record of one of the buckets. */
    ghost predicate Allocated(o: object)
      reads this
      requires |stored| == |allocations|
    {
      exists i | 0 <= i < |stored| ::
        o in stored[i].items || o == allocations[i].block || o == allocations[i].items
    }

    /** What `Storage` contains. */
    lemma StorageIsAllocated()
      requires |stored| == |allocations|
      ensures forall o: object :: o in Storage() <==> Allocated(o)
    {
      forall o: object
        ensures o in Storage() <==> Allocated(o)
      {
        StorageHolds(stored, allocations, |stored|, o);
      }
    }

    /** `whitelist_dispose`: the pointers handed to `kfree`, in order. The bucket records
        are not among them. */
    method Dispose() returns (freed: seq<object>)
      requires Valid()
      ensures freed == Storage()
    {
      freed := [];
      var cur := 0;
      while cur < index
        invariant 0 <= cur <= index
        invariant freed == StorageOf(stored, allocations, cur)
      {
        assert Live(cur, stored[cur], allocations[cur]);
        var part := slots[cur].items.Destroy();
        freed := freed + part;
        cur := cur + 1;
      }
    }
  }
}
