/** The cloud server's bounded cache: an insertion-ordered map whose oldest key goes first. */
module Lru {
  import opened Wrappers

  const MAX_ENTRIES := 64

  datatype Slot<T> = Slot(key: string, entry: T)

  /** What happens to a key: it is used, or dropped. */
  datatype Use = Used(key: string) | Dropped(key: string)

  function Keys<T>(slots: seq<Slot<T>>): (keys: seq<string>)
    ensures |keys| == |slots| && forall i :: 0 <= i < |slots| ==> keys[i] == slots[i].key
  {
    seq(|slots|, i requires 0 <= i < |slots| => slots[i].key)
  }

  predicate Distinct<K(==)>(keys: seq<K>)
  {
    forall i, j :: 0 <= i < j < |keys| ==> keys[i] != keys[j]
  }

  function Without<K(==)>(keys: seq<K>, key: K): seq<K>
  {
    if keys == [] then []
    else if keys[0] == key then Without(keys[1..], key)
    else [keys[0]] + Without(keys[1..], key)
  }

  lemma {:induction false} WithoutMembers<K(!new)>(keys: seq<K>, key: K)
    ensures forall k :: k in Without(keys, key) <==> k in keys && k != key
    ensures key !in keys ==> Without(keys, key) == keys
  {
    if keys != [] {
      WithoutMembers(keys[1..], key);
      assert forall k :: k in keys <==> k == keys[0] || k in keys[1..];
    }
  }

  lemma {:induction false} WithoutDistinct<K(!new)>(keys: seq<K>, key: K)
    requires Distinct(keys)
    ensures Distinct(Without(keys, key)) && |Without(keys, key)| == |keys| - if key in keys then 1 else 0
    ensures forall k :: k in Without(keys, key) <==> k in keys && k != key
  {
    WithoutMembers(keys, key);
    if keys != [] {
      WithoutMembers(keys[1..], key);
      WithoutDistinct(keys[1..], key);
      var rest := Without(keys[1..], key);
      assert keys[0] !in keys[1..];
      assert forall i :: 0 <= i < |rest| ==> rest[i] in rest;
    }
  }

  /** The keys by recency of use, were nothing ever evicted. */
  function Recency(uses: seq<Use>): (keys: seq<string>)
  {
    if uses == [] then []
    else
      var before := Recency(uses[..|uses| - 1]);
      match uses[|uses| - 1]
      case Used(key) => Without(before, key) + [key]
      case Dropped(key) => Without(before, key)
  }

  lemma {:induction false} WithoutAppend<K>(a: seq<K>, b: seq<K>, key: K)
    ensures Without(a + b, key) == Without(a, key) + Without(b, key)
  {
    if a == [] {
      assert a + b == b;
    } else {
      WithoutAppend(a[1..], b, key);
      assert (a + b)[1..] == a[1..] + b && (a + b)[0] == a[0];
    }
  }

  /** The keys held are the most recently used ones: the rest, used less recently, were evicted. */
  ghost predicate Newest(keys: seq<string>, uses: seq<Use>)
  {
    exists evicted :: Recency(uses) == evicted + keys
  }

  lemma NewestAfterUse(keys: seq<string>, uses: seq<Use>, key: string)
    requires Newest(keys, uses)
    ensures Newest(Without(keys, key) + [key], uses + [Used(key)])
  {
    var evicted :| Recency(uses) == evicted + keys;
    assert (uses + [Used(key)])[..|uses|] == uses;
    WithoutAppend(evicted, keys, key);
    assert Recency(uses + [Used(key)]) == Without(evicted, key) + (Without(keys, key) + [key]);
  }

  lemma NewestAfterDrop(keys: seq<string>, uses: seq<Use>, key: string)
    requires Newest(keys, uses)
    ensures Newest(Without(keys, key), uses + [Dropped(key)])
  {
    var evicted :| Recency(uses) == evicted + keys;
    assert (uses + [Dropped(key)])[..|uses|] == uses;
    WithoutAppend(evicted, keys, key);
  }

  lemma NewestAfterEviction(keys: seq<string>, uses: seq<Use>)
    requires Newest(keys, uses) && keys != []
    ensures Newest(keys[1..], uses)
  {
    var evicted :| Recency(uses) == evicted + keys;
    assert Recency(uses) == (evicted + [keys[0]]) + keys[1..];
  }

  function Find<T>(slots: seq<Slot<T>>, key: string): (r: Option<T>)
    ensures r.Some? <==> key in Keys(slots)
    ensures r.Some? ==> exists i :: 0 <= i < |slots| && slots[i].key == key && slots[i].entry == r.value
  {
    if slots == [] then None
    else if slots[0].key == key then Some(slots[0].entry)
    else
      var r := Find(slots[1..], key);
      assert r.Some? ==> key in Keys(slots) by {
        if r.Some? {
          var i :| 0 <= i < |slots[1..]| && slots[1..][i].key == key;
          assert Keys(slots)[i + 1] == key;
        }
      }
      assert key in Keys(slots) ==> r.Some? by {
        if key in Keys(slots) {
          var i :| 0 <= i < |slots| && Keys(slots)[i] == key;
          assert Keys(slots[1..])[i - 1] == key;
        }
      }
      r
  }

  lemma FindIsSlot<T>(slots: seq<Slot<T>>, key: string)
    ensures Find(slots, key).Some? ==> Slot(key, Find(slots, key).value) in slots && key in Keys(slots)
  {
  }

  lemma FindStep<T>(slots: seq<Slot<T>>, i: nat, key: string)
    requires i < |slots|
    ensures Find(slots[i..], key) == if slots[i].key == key then Some(slots[i].entry) else Find(slots[i + 1..], key)
  {
    assert slots[i..][1..] == slots[i + 1..];
  }

  function Removed<T>(slots: seq<Slot<T>>, key: string): (r: seq<Slot<T>>)
    ensures |r| <= |slots| && forall i :: 0 <= i < |r| ==> r[i] in slots
  {
    if slots == [] then []
    else if slots[0].key == key then Removed(slots[1..], key)
    else [slots[0]] + Removed(slots[1..], key)
  }

  lemma {:induction false} RemovedKeys<T>(slots: seq<Slot<T>>, key: string)
    ensures Keys(Removed(slots, key)) == Without(Keys(slots), key)
  {
    if slots != [] {
      RemovedKeys(slots[1..], key);
      assert Keys(slots)[1..] == Keys(slots[1..]) && Keys(slots)[0] == slots[0].key;
      if slots[0].key != key {
        assert Keys([slots[0]] + Removed(slots[1..], key)) == [slots[0].key] + Keys(Removed(slots[1..], key));
      }
    }
  }

  lemma {:induction false} RemovedFinds<T>(slots: seq<Slot<T>>, key: string, other: string)
    ensures Find(Removed(slots, key), other) == if other == key then None else Find(slots, other)
  {
    if slots != [] {
      RemovedFinds(slots[1..], key, other);
      if slots[0].key != key {
        assert Removed(slots, key)[1..] == Removed(slots[1..], key);
      }
    }
  }

  lemma {:induction false} AppendFinds<T>(slots: seq<Slot<T>>, slot: Slot<T>, other: string)
    requires slot.key !in Keys(slots)
    ensures Find(slots + [slot], other) == if other == slot.key then Some(slot.entry) else Find(slots, other)
  {
    if slots != [] {
      assert slot.key !in Keys(slots[1..]) by {
        assert Keys(slots)[1..] == Keys(slots[1..]);
      }
      assert Keys(slots)[0] == slots[0].key;
      AppendFinds(slots[1..], slot, other);
      assert (slots + [slot])[1..] == slots[1..] + [slot];
    }
  }

  /** A cache `Map`; its keys are file paths, never empty. */
  class Cache<T> {
    var slots: seq<Slot<T>>
    ghost var uses: seq<Use>

    /** At most 64 entries, one a key, the most recently used. */
    ghost predicate Valid()
      reads this
    {
      |slots| <= MAX_ENTRIES && Distinct(Keys(slots)) && "" !in Keys(slots) && Newest(Keys(slots), uses)
    }

    ghost function At(key: string): Option<T>
      reads this
    {
      Find(slots, key)
    }

    constructor ()
      ensures Valid() && slots == []
    {
      slots, uses := [], [];
      new;
      assert Recency([]) == [] + Keys(slots);
    }

    method Get(key: string) returns (r: Option<T>)
      ensures r == At(key)
    {
      hide Find;
      for i := 0 to |slots|
        invariant Find(slots, key) == Find(slots[i..], key)
      {
        FindStep(slots, i, key);
        if slots[i].key == key {
          return Some(slots[i].entry);
        }
      }
      assert slots[|slots|..] == [];
      r := None;
    }

    method Delete(key: string)
      requires Valid()
      modifies this
      ensures Valid() && uses == old(uses) + [Dropped(key)]
      ensures forall slot :: slot in slots ==> slot in old(slots)
      ensures forall other :: At(other) == if other == key then None else old(At(other))
    {
      RemovedKeys(slots, key);
      WithoutDistinct(Keys(slots), key);
      NewestAfterDrop(Keys(slots), uses, key);
      forall other ensures Find(Removed(slots, key), other) == if other == key then None else Find(slots, other) {
        RemovedFinds(slots, key, other);
      }
      slots := Removed(slots, key);
      uses := uses + [Dropped(key)];
    }

    /** Deletes and sets, which puts the key last. */
    method Promote(key: string, entry: T)
      requires Valid() && key != ""
      modifies this
      ensures |slots| <= MAX_ENTRIES + 1 && (key in old(Keys(slots)) ==> |slots| <= MAX_ENTRIES)
      ensures Distinct(Keys(slots)) && "" !in Keys(slots) && Newest(Keys(slots), uses)
          && uses == old(uses) + [Used(key)]
      ensures slots != [] && slots[|slots| - 1] == Slot(key, entry)
      ensures forall slot :: slot in slots ==> slot == Slot(key, entry) || slot in old(slots)
      ensures forall other :: At(other) == if other == key then Some(entry) else old(At(other))
    {
      RemovedKeys(slots, key);
      WithoutDistinct(Keys(slots), key);
      NewestAfterUse(Keys(slots), uses, key);
      var kept := Removed(slots, key);
      var added := kept + [Slot(key, entry)];
      assert Keys(added) == Keys(kept) + [key];
      forall other ensures Find(added, other) == if other == key then Some(entry) else Find(slots, other) {
        RemovedFinds(slots, key, other);
        AppendFinds(kept, Slot(key, entry), other);
      }
      assert |Keys(kept)| == |kept|;
      slots := added;
      uses := uses + [Used(key)];
    }

    /** `trimDataCache`: the oldest keys go. */
    method Trim()
      requires slots != [] && Distinct(Keys(slots)) && "" !in Keys(slots) && Newest(Keys(slots), uses)
      modifies this
      ensures Valid() && uses == old(uses)
      ensures |slots| == if |old(slots)| > MAX_ENTRIES then MAX_ENTRIES else |old(slots)|
      ensures slots == old(slots)[|old(slots)| - |slots|..]
      ensures forall other :: At(other) == old(At(other)) || At(other) == None
    {
      while |slots| > MAX_ENTRIES
        invariant uses == old(uses) && 0 < |slots| <= |old(slots)| && slots == old(slots)[|old(slots)| - |slots|..]
        invariant Distinct(Keys(slots)) && "" !in Keys(slots) && Newest(Keys(slots), uses)
        invariant |slots| == |old(slots)| || |slots| >= MAX_ENTRIES
        invariant forall other :: At(other) == old(At(other)) || At(other) == None
      {
        var oldest := slots[0].key;
        assert Keys(slots)[0] == oldest;
        if oldest == "" {
          return;
        }
        NewestAfterEviction(Keys(slots), uses);
        assert Keys(slots)[1..] == Keys(slots[1..]);
        forall other ensures Find(slots[1..], other) == Find(slots, other) || Find(slots[1..], other) == None {}
        slots := slots[1..];
      }
    }

    /** A new or renewed entry: the oldest make room. */
    method Insert(key: string, entry: T)
      requires Valid() && key != ""
      modifies this
      ensures Valid() && uses == old(uses) + [Used(key)] && At(key) == Some(entry)
      ensures forall slot :: slot in slots ==> slot == Slot(key, entry) || slot in old(slots)
      ensures forall other :: other == key || At(other) == old(At(other)) || At(other) == None
    {
      hide Find, Newest, Recency;
      Promote(key, entry);
      Trim();
      assert Keys(slots)[|slots| - 1] == key;
    }
  }
}
