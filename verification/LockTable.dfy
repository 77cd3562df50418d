/** The bounded uid tables: freezer/module/freezer_hook_utils.c, `ARRAY FUNCTIONS`, and
    the scan `is_hooked_user` of freezer/module/freezer_hook.c. */
module LockTables {
  import opened CTypes

  const MAX_SIZE_ARRAY := 1024

  ghost predicate Distinct<T>(s: seq<T>) {
    forall i, j | 0 <= i < j < |s| :: s[i] != s[j]
  }

  /** The uids in the slots of a uid table. */
  function UidsOf(s: seq<int32>): set<uint32> {
    set x | x in s :: AsUnsigned(x)
  }

  lemma InUidsOf(s: seq<int32>, u: uint32)
    ensures u in UidsOf(s) <==> AsSigned(u) in s
  {
    forall x: int32 | x in s
      ensures AsUnsigned(x) == u <==> x == AsSigned(u)
    {
      SignedUnsignedInverse(x, u);
    }
  }

  lemma {:induction false} UidCount(s: seq<int32>)
    requires Distinct(s)
    ensures |UidsOf(s)| == |s|
  {
    if s != [] {
      var n := |s| - 1;
      UidCount(s[..n]);
      SignedUnsignedInverse(s[n], AsUnsigned(s[n]));
      InUidsOf(s[..n], AsUnsigned(s[n]));
      assert s == s[..n] + [s[n]];
      assert UidsOf(s) == UidsOf(s[..n]) + {AsUnsigned(s[n])};
    }
  }

  lemma SubsetCount<T>(a: set<T>, b: set<T>)
    requires a <= b
    ensures |a| <= |b|
  {
    assert a + (b - a) == b;
  }

  /** `s` without its first occurrence of `x`. */
  function Without(s: seq<int32>, x: int32): seq<int32> {
    if s == [] then []
    else if s[0] == x then s[1..]
    else [s[0]] + Without(s[1..], x)
  }

  /** The live prefix after LOCK. A full table takes nothing. */
  function Added(s: seq<int32>, x: int32): seq<int32> {
    if |s| >= MAX_SIZE_ARRAY || x in s then s else s + [x]
  }

  /** The live prefix after UNLOCK. A full table gives nothing back. */
  function Removed(s: seq<int32>, x: int32): seq<int32> {
    if |s| >= MAX_SIZE_ARRAY then s else Without(s, x)
  }

  lemma {:induction false} WithoutCutsAt(s: seq<int32>, x: int32, k: nat)
    requires k < |s| && s[k] == x && x !in s[..k]
    ensures Without(s, x) == s[..k] + s[k + 1..]
  {
    if k > 0 {
      assert s[0] in s[..k];
      assert s[1..][..k - 1] == s[..k][1..];
      WithoutCutsAt(s[1..], x, k - 1);
      assert s[..k] + s[k + 1..] == [s[0]] + (s[1..][..k - 1] + s[1..][k..]);
    }
  }

  lemma {:induction false} WithoutAbsent(s: seq<int32>, x: int32)
    requires x !in s
    ensures Without(s, x) == s
  {
    if s != [] {
      WithoutAbsent(s[1..], x);
    }
  }

  function FirstIndex(s: seq<int32>, x: int32): (k: nat)
    requires x in s
    ensures k < |s| && s[k] == x && x !in s[..k]
  {
    if s[0] == x then 0 else
      assert s == [s[0]] + s[1..];
      var k := FirstIndex(s[1..], x) + 1;
      assert s[..k] == [s[0]] + s[1..][..k - 1];
      k
  }

  /** Cutting slot `k` out of distinct slots takes exactly that member away. */
  lemma CutMembers(s: seq<int32>, k: nat, y: int32)
    requires Distinct(s) && k < |s|
    ensures y in s[..k] + s[k + 1..] <==> y in s && y != s[k]
  {
    if y in s && y != s[k] {
      var j :| 0 <= j < |s| && s[j] == y;
      assert if j < k then s[..k][j] == y else s[k + 1..][j - k - 1] == y;
    }
  }

  lemma CutIsDistinct(s: seq<int32>, k: nat)
    requires Distinct(s) && k < |s|
    ensures Distinct(s[..k] + s[k + 1..])
  {
    var after := s[..k] + s[k + 1..];
    forall i, j | 0 <= i < j < |after|
      ensures after[i] != after[j]
    {
      assert after[i] == s[if i < k then i else i + 1];
      assert after[j] == s[if j < k then j else j + 1];
    }
  }

  /** UNLOCK below capacity deletes the named uid and nothing else, keeps the order of
      the rest and keeps the slots distinct; an absent uid changes nothing. */
  lemma RemovedIsExact(s: seq<int32>, x: int32)
    requires Distinct(s)
    ensures Distinct(Removed(s, x))
    ensures x !in s ==> Removed(s, x) == s
    ensures |s| < MAX_SIZE_ARRAY ==> forall y: int32 :: y in Removed(s, x) <==> y in s && y != x
    ensures |s| < MAX_SIZE_ARRAY && x in s ==>
              exists k | 0 <= k < |s| :: s[k] == x && Removed(s, x) == s[..k] + s[k + 1..]
    ensures |s| >= MAX_SIZE_ARRAY ==> Removed(s, x) == s
  {
    if x !in s {
      WithoutAbsent(s, x);
    } else if |s| < MAX_SIZE_ARRAY {
      var k := FirstIndex(s, x);
      WithoutCutsAt(s, x, k);
      CutIsDistinct(s, k);
      forall y: int32
        ensures y in Removed(s, x) <==> y in s && y != x
      {
        CutMembers(s, k, y);
      }
    }
  }

  lemma AddedIsExact(s: seq<int32>, x: int32)
    requires Distinct(s)
    ensures Distinct(Added(s, x))
    ensures |s| < MAX_SIZE_ARRAY ==> forall y: int32 :: y in Added(s, x) <==> y in s || y == x
    ensures |s| <= |Added(s, x)| <= |s| + 1
  {
  }

  /** LOCK of an absent uid followed by UNLOCK of it gives back the identical live
      prefix, unless the LOCK took the last slot. */
  lemma LockUnlockRestores(s: seq<int32>, x: int32)
    requires |s| <= MAX_SIZE_ARRAY && x !in s
    ensures Removed(Added(s, x), x) == s <==> |s| != MAX_SIZE_ARRAY - 1
  {
    if |s| < MAX_SIZE_ARRAY {
      WithoutCutsAt(s + [x], x, |s|);
    }
  }

  /** What the shifting loop leaves behind is the sequence with slot `k` cut out. */
  lemma ShiftedTail(s: seq<int32>, x: int32, k: nat, after: seq<int32>)
    requires Distinct(s) && k < |s| && s[k] == x && x !in s[..k]
    requires |after| == |s| - 1 >= k
    requires after[..k] == s[..k]
    requires forall j | k <= j < |after| :: after[j] == s[j + 1]
    ensures after == Without(s, x) && Distinct(after)
  {
    WithoutCutsAt(s, x, k);
    assert after == s[..k] + s[k + 1..];
  }

  class LockTable {
    const slots: array<int32>
    var index: int

    ghost predicate Valid()
      reads this, slots
    {
      && slots.Length == MAX_SIZE_ARRAY
      && 0 <= index <= MAX_SIZE_ARRAY
      && Distinct(slots[..index])
    }

    ghost function Live(): seq<int32>
      reads this, slots
      requires Valid()
    {
      slots[..index]
    }

    constructor ()
      ensures Valid() && fresh(slots) && Live() == []
    {
      slots := new int32[MAX_SIZE_ARRAY](_ => 0);
      index := 0;
    }

    /** `add_uid_to_array` */
    method Add(uid: uint32) returns (added: int)
      requires Valid()
      modifies this`index, slots
      ensures Valid() && Live() == Added(old(Live()), AsSigned(uid))
      ensures Live() == if |old(Live())| >= 1024 || AsSigned(uid) in old(Live()) then old(Live())
                        else old(Live()) + [AsSigned(uid)]
      ensures added == if Live() != old(Live()) then 1 else 0
    {
      var cur := 0;
      if index >= MAX_SIZE_ARRAY {
        return 0;
      }

      while cur < index
        invariant 0 <= cur <= index
        invariant AsSigned(uid) !in slots[..cur]
        modifies {}
      {
        SignedUnsignedInverse(slots[cur], uid);
        if AsUnsigned(slots[cur]) == uid {
          assert slots[cur] in Live();
          return 0;
        }

        cur := cur + 1;
      }

      slots[index] := AsSigned(uid);
      index := index + 1;
      assert slots[..index - 1] == old(Live());
      assert Live() == old(Live()) + [AsSigned(uid)];

      return 1;
    }

    /** `remove_uid_from_array` */
    method Remove(uid: uint32) returns (removed: int)
      requires Valid()
      modifies this`index, slots
      ensures Valid() && Live() == Removed(old(Live()), AsSigned(uid))
      ensures |old(Live())| >= 1024 || AsSigned(uid) !in old(Live()) ==> Live() == old(Live())
      ensures forall k | 0 <= k < |old(Live())| < 1024 && old(Live())[k] == AsSigned(uid) ::
                Live() == old(Live())[..k] + old(Live())[k + 1..]
      ensures removed == if Live() != old(Live()) then 1 else 0
    {
      var cur := 0;
      var isRmIndex := false;
      ghost var x := AsSigned(uid);

      if index >= MAX_SIZE_ARRAY {
        return 0;
      }

      while cur < index
        invariant 0 <= cur <= index
        invariant x !in slots[..cur]
        invariant !isRmIndex
        modifies {}
      {
        SignedUnsignedInverse(slots[cur], uid);
        if AsUnsigned(slots[cur]) == uid {
          isRmIndex := true;
          break;
        }

        cur := cur + 1;
      }

      if !isRmIndex {
        WithoutAbsent(Live(), x);
        return 0;
      }

      ghost var live, k := Live(), cur;
      index := index - 1;

      while cur < index
        invariant k <= cur <= index == |live| - 1
        invariant slots[..k] == live[..k]
        invariant forall j | k <= j < cur :: slots[j] == live[j + 1]
        invariant forall j | cur < j <= index :: slots[j] == live[j]
      {
        slots[cur] := slots[cur + 1];
        cur := cur + 1;
      }

      ShiftedTail(live, x, k, slots[..index]);
      return 1;
    }

    /** `is_hooked_user`, given the caller's uid as `original_getuid` returns it. */
    method IsHookedUser(origUid: int32) returns (hooked: bool)
      requires Valid()
      ensures hooked <==> origUid in Live()
    {
      var cur := 0;

      while cur < index
        invariant 0 <= cur <= index
        invariant origUid !in slots[..cur]
      {
        if slots[cur] == origUid {
          assert slots[cur] in Live();
          return true;
        }

        cur := cur + 1;
      }
      return false;
    }
  }
}
