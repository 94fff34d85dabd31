/** structuredClone of the native host: a recursion over a heap graph of plain objects, arrays, maps and sets
  * that keeps every copy it has begun in a `seen` map. */
module GraphClone {
  import opened Wrappers

  datatype Primitive = Undefined | Null | Boolean(b: bool) | Number(n: int) | Text(s: string)

  datatype Value = Prim(p: Primitive) | Ref(node: Node)

  datatype Kind = Plain | List | Map | Set

  /** A property, an array element (no key), a map entry or a set element (no value). */
  datatype Item = Item(key: Value, value: Value)

  const NONE: Value := Prim(Undefined)
  const PROTO: Value := Prim(Text("__proto__"))

  /** The position of the item under a key, or the number of items. */
  function Find(items: seq<Item>, key: Value): (i: nat)
    ensures i <= |items| && (i < |items| ==> items[i].key == key)
    ensures forall j :: 0 <= j < i ==> items[j].key != key
  {
    if items == [] || items[0].key == key then 0 else 1 + Find(items[1..], key)
  }

  class Node {
    const kind: Kind
    var items: seq<Item>
    /** What an assignment to `__proto__` made the prototype; None for the one the object was made with. */
    var proto: Option<Value>

    constructor (kind: Kind)
      ensures this.kind == kind && items == [] && proto == None
    {
      this.kind := kind;
      items := [];
      proto := None;
    }

    /** `push`, `Map.set`, `Set.add`, or a property assignment, in which `__proto__` is not a property: it takes
      * an object or null as the prototype, ignores anything else, and throws when the object is its own prototype
      * or one above it. `T` holds every object a prototype here refers to. */
    method Put(key: Value, value: Value, ghost T: set<Node>) returns (threw: bool)
      requires Upward(T) && (value.Ref? ==> value.node in T)
      modifies this
      ensures threw <==> kind == Plain && key == PROTO && value.Ref? && old(IsAbove(T, this, value.node))
      ensures threw ==> items == old(items) && proto == old(proto)
      ensures !threw && kind == Plain && key == PROTO ==>
                && items == old(items)
                && proto == if value.Ref? || value == Prim(Null) then Some(value) else old(proto)
      ensures !(kind == Plain && key == PROTO) ==>
                && proto == old(proto)
                && items == if kind == List || Find(old(items), key) == |old(items)|
                            then old(items) + [Item(key, value)]
                            else old(items)[Find(old(items), key) := Item(key, value)]
    {
      threw := false;
      if kind == Plain && key == PROTO {
        if value.Ref? {
          threw := HasAbove(value.node, T);
        }
        if !threw && (value.Ref? || value == Prim(Null)) {
          proto := Some(value);
        }
      } else {
        var i := Find(items, key);
        if kind == List || i == |items| {
          items := items + [Item(key, value)];
        } else {
          items := items[i := Item(key, value)];
        }
      }
    }

    /** The engine's walk up a prototype chain, for this object. */
    method HasAbove(start: Node, ghost T: set<Node>) returns (found: bool)
      requires Upward(T) && start in T
      ensures found <==> IsAbove(T, this, start)
    {
      var at := start;
      var passed: set<Node> := {};
      assert ChainAt(T, start, 0) == Some(start);
      ghost var k: nat := 0;
      while at != this
        invariant at in T && ChainAt(T, start, k) == Some(at) && (start == at || start in passed)
        invariant passed <= T && this !in passed
        invariant forall n :: n in passed && Next(n).Some? ==> Next(n).value in passed || Next(n).value == at
        decreases T - passed
      {
        if at in passed || !(at.proto.Some? && at.proto.value.Ref?) {
          NeverAbove(T, this, start, passed + {at});
          return false;
        }
        assert Next(at) == Some(at.proto.value.node);
        passed := passed + {at};
        at := at.proto.value.node;
        k := k + 1;
      }
      found := true;
    }
  }

  // ------------------------------------------------------- prototype chains

  /** The object an object's prototype slot was set to. */
  function Next(n: Node): Option<Node>
    reads n
  {
    if n.proto.Some? && n.proto.value.Ref? then Some(n.proto.value.node) else None
  }

  ghost predicate Upward(T: set<Node>)
    reads T
  {
    forall n :: n in T && Next(n).Some? ==> Next(n).value in T
  }

  /** What is [k] prototypes above an object. */
  ghost function ChainAt(T: set<Node>, n: Node, k: nat): Option<Node>
    reads T
  {
    if k == 0 then Some(n)
    else match ChainAt(T, n, k - 1)
      case None => None
      case Some(m) => if m in T then Next(m) else None
  }

  ghost predicate IsAbove(T: set<Node>, target: Node, start: Node)
    reads T
  {
    exists k: nat :: ChainAt(T, start, k) == Some(target)
  }

  lemma NeverAbove(T: set<Node>, target: Node, start: Node, passed: set<Node>)
    requires start in passed && target !in passed
    requires forall n :: n in passed && Next(n).Some? ==> Next(n).value in passed
    ensures !IsAbove(T, target, start)
  {
    forall k: nat ensures ChainAt(T, start, k) != Some(target) { StaysIn(T, start, passed, k); }
  }

  lemma {:induction false} StaysIn(T: set<Node>, start: Node, passed: set<Node>, k: nat)
    requires start in passed
    requires forall n :: n in passed && Next(n).Some? ==> Next(n).value in passed
    ensures ChainAt(T, start, k).Some? ==> ChainAt(T, start, k).value in passed
  {
    if k > 0 {
      StaysIn(T, start, passed, k - 1);
    }
  }

  // --------------------------------------------------------------- meaning

  predicate Has(seen: map<Node, Node>, v: Value)
  {
    v.Ref? ==> v.node in seen
  }

  /** What a value is in the copy. */
  function Image(seen: map<Node, Node>, v: Value): Value
    requires Has(seen, v)
  {
    match v
    case Prim(_) => v
    case Ref(n) => Ref(seen[n])
  }

  predicate HasAll(seen: map<Node, Node>, items: seq<Item>)
  {
    forall it :: it in items ==> Has(seen, it.key) && Has(seen, it.value)
  }

  function Images(seen: map<Node, Node>, items: seq<Item>): (r: seq<Item>)
    requires HasAll(seen, items)
    ensures |r| == |items|
    ensures forall i :: 0 <= i < |items| ==> r[i] == Item(Image(seen, items[i].key), Image(seen, items[i].value))
  {
    seq(|items|, i requires 0 <= i < |items| => Item(Image(seen, items[i].key), Image(seen, items[i].value)))
  }

  /** The items that a property assignment keeps as items. */
  function Kept(kind: Kind, items: seq<Item>): (r: seq<Item>)
    ensures forall it :: it in r ==> it in items
    ensures |r| <= |items|
    ensures |r| == |items| <==> !(kind == Plain && HasProto(items))
    ensures |r| == |items| ==> r == items
  {
    if items == [] then []
    else
      var rest := items[..|items| - 1];
      var last := items[|items| - 1];
      if kind == Plain && last.key == PROTO then Kept(kind, rest) else Kept(kind, rest) + [last]
  }

  predicate HasProto(items: seq<Item>)
  {
    exists i :: 0 <= i < |items| && items[i].key == PROTO
  }

  /** The prototype that the assignments leave. */
  function Proto(kind: Kind, seen: map<Node, Node>, items: seq<Item>): Option<Value>
    requires HasAll(seen, items)
  {
    if items == [] then None
    else
      var rest := items[..|items| - 1];
      var last := items[|items| - 1];
      if kind == Plain && last.key == PROTO && (last.value.Ref? || last.value == Prim(Null)) then
        Some(Image(seen, last.value))
      else Proto(kind, seen, rest)
  }

  /** A map, a set and an object hold each key once. */
  predicate UniqueKeys(kind: Kind, items: seq<Item>)
  {
    kind != List ==> forall i, j :: 0 <= i < j < |items| ==> items[i].key != items[j].key
  }

  /** Nothing in the set refers out of it. */
  ghost predicate Closed(S: set<Node>)
    reads S
  {
    forall n :: n in S ==> forall i :: 0 <= i < |n.items| ==>
      && (n.items[i].key.Ref? ==> n.items[i].key.node in S)
      && (n.items[i].value.Ref? ==> n.items[i].value.node in S)
  }

  ghost predicate Injective(seen: map<Node, Node>)
  {
    forall a, b :: a in seen && b in seen && seen[a] == seen[b] ==> a == b
  }

  /** The copy of `n` is finished. */
  ghost predicate Done(seen: map<Node, Node>, n: Node)
    requires n in seen
    reads n, seen[n]
  {
    && seen[n].kind == n.kind
    && HasAll(seen, n.items)
    && seen[n].items == Images(seen, Kept(n.kind, n.items))
    && seen[n].proto == Proto(n.kind, seen, n.items)
  }

  ghost predicate Extends(seen: map<Node, Node>, more: map<Node, Node>)
  {
    forall n :: n in seen ==> n in more && more[n] == seen[n]
  }

  lemma ImagesGrow(kind: Kind, seen: map<Node, Node>, more: map<Node, Node>, items: seq<Item>)
    requires Extends(seen, more) && HasAll(seen, items)
    ensures HasAll(more, items)
    ensures Images(more, Kept(kind, items)) == Images(seen, Kept(kind, items))
    ensures Proto(kind, more, items) == Proto(kind, seen, items)
  {
    assert HasAll(seen, Kept(kind, items));
    ProtoGrows(kind, seen, more, items);
  }

  lemma ProtoGrows(kind: Kind, seen: map<Node, Node>, more: map<Node, Node>, items: seq<Item>)
    requires Extends(seen, more) && HasAll(seen, items) && HasAll(more, items)
    ensures Proto(kind, more, items) == Proto(kind, seen, items)
  {
    if items != [] {
      ProtoGrows(kind, seen, more, items[..|items| - 1]);
    }
  }

  lemma DoneGrows(seen: map<Node, Node>, more: map<Node, Node>, n: Node)
    requires n in seen && Done(seen, n) && Extends(seen, more)
    ensures Done(more, n)
  {
    ImagesGrow(n.kind, seen, more, n.items);
  }

  lemma ImageInjective(seen: map<Node, Node>, a: Value, b: Value)
    requires Injective(seen) && Has(seen, a) && Has(seen, b)
    ensures Image(seen, a) == Image(seen, b) <==> a == b
  {
  }

  /** No earlier item has the image key of an item: keys are unique, and so are their images. */
  lemma KeyIsNew(kind: Kind, seen: map<Node, Node>, items: seq<Item>, i: nat)
    requires i < |items| && HasAll(seen, items[..i]) && Has(seen, items[i].key)
    requires Injective(seen) && UniqueKeys(kind, items) && kind != List
    ensures var before := Images(seen, Kept(kind, items[..i]));
            Find(before, Image(seen, items[i].key)) == |before|
  {
    hide Injective;
    var kept := Kept(kind, items[..i]);
    var before := Images(seen, kept);
    forall j | 0 <= j < |before|
      ensures before[j].key != Image(seen, items[i].key)
    {
      assert kept[j] in items[..i];
      ImageInjective(seen, kept[j].key, items[i].key);
    }
  }

  lemma KeptStep(kind: Kind, seen: map<Node, Node>, items: seq<Item>, i: nat)
    requires i < |items| && HasAll(seen, items[..i]) && Has(seen, items[i].key) && Has(seen, items[i].value)
    ensures HasAll(seen, items[..i + 1])
    ensures Kept(kind, items[..i + 1]) ==
            if kind == Plain && items[i].key == PROTO then Kept(kind, items[..i])
            else Kept(kind, items[..i]) + [items[i]]
    ensures Proto(kind, seen, items[..i + 1]) ==
            if kind == Plain && items[i].key == PROTO && (items[i].value.Ref? || items[i].value == Prim(Null)) then
              Some(Image(seen, items[i].value))
            else Proto(kind, seen, items[..i])
  {
    var all := items[..i + 1];
    assert all[..|all| - 1] == items[..i] && all[|all| - 1] == items[i];
    assert all == items[..i] + [items[i]];
  }

  /** Storing the image of one more item under its image key adds that item's image. */
  lemma PutAdds(kind: Kind, seen: map<Node, Node>, items: seq<Item>, i: nat)
    requires i < |items| && HasAll(seen, items[..i]) && Has(seen, items[i].key) && Has(seen, items[i].value)
    requires Injective(seen) && UniqueKeys(kind, items)
    ensures HasAll(seen, items[..i + 1])
    ensures var key, value := Image(seen, items[i].key), Image(seen, items[i].value);
            var before := Images(seen, Kept(kind, items[..i]));
            var after := Images(seen, Kept(kind, items[..i + 1]));
            if kind == Plain && key == PROTO then
              && after == before
              && Proto(kind, seen, items[..i + 1]) ==
                 if value.Ref? || value == Prim(Null) then Some(value) else Proto(kind, seen, items[..i])
            else
              && after == before + [Item(key, value)]
              && Proto(kind, seen, items[..i + 1]) == Proto(kind, seen, items[..i])
              && (kind != List ==> Find(before, key) == |before|)
  {
    hide Injective, Kept, Proto, Find, UniqueKeys, Closed;
    KeptStep(kind, seen, items, i);
    ImageInjective(seen, items[i].key, PROTO);
    if kind != List {
      KeyIsNew(kind, seen, items, i);
    }
  }

  // ------------------------------------------------- own `__proto__` references

  /** The object a plain object's own property named `__proto__` refers to. */
  function ProtoOf(n: Node): Option<Node>
    reads n
  {
    var i := Find(n.items, PROTO);
    if n.kind == Plain && i < |n.items| && n.items[i].value.Ref? then Some(n.items[i].value.node) else None
  }

  /** What is [k] such references away from a node. */
  ghost function Above(S: set<Node>, n: Node, k: nat): Option<Node>
    reads S
  {
    if k == 0 then Some(n)
    else match Above(S, n, k - 1)
      case None => None
      case Some(m) => if m in S then ProtoOf(m) else None
  }

  /** Own `__proto__` references lead from a node of the set back to it. */
  ghost predicate ProtoCycle(S: set<Node>)
    reads S
  {
    exists n, k: nat :: n in S && k > 0 && Above(S, n, k) == Some(n)
  }

  /** They do, by way of the nodes of [L] alone. */
  ghost predicate Looped(S: set<Node>, L: seq<Node>, n: Node)
    reads S
  {
    exists k: nat :: k > 0 && LoopedIn(S, L, n, k)
  }

  ghost predicate LoopedIn(S: set<Node>, L: seq<Node>, n: Node, k: nat)
    reads S
  {
    Above(S, n, k) == Some(n) && forall i: nat :: 0 < i < k ==> Above(S, n, i).Some? && Above(S, n, i).value in L
  }

  lemma {:induction false} AboveSum(S: set<Node>, n: Node, m: Node, a: nat, b: nat)
    requires Above(S, n, a) == Some(m)
    ensures Above(S, n, a + b) == Above(S, m, b)
  {
    if b > 0 {
      AboveSum(S, n, m, a, b - 1);
    }
  }

  /** The first return of a node that returns to itself. */
  lemma {:induction false} FirstReturn(S: set<Node>, n: Node, k: nat) returns (first: nat)
    requires k > 0 && Above(S, n, k) == Some(n)
    ensures 0 < first <= k && Above(S, n, first) == Some(n)
    ensures forall i: nat :: 0 < i < first ==> Above(S, n, i) != Some(n)
    decreases k
  {
    if i: nat :| 0 < i < k && Above(S, n, i) == Some(n) {
      first := FirstReturn(S, n, i);
    } else {
      first := k;
    }
  }

  lemma {:induction false} AboveSome(S: set<Node>, n: Node, i: nat, k: nat)
    requires i <= k && Above(S, n, k).Some?
    ensures Above(S, n, i).Some?
    decreases k - i
  {
    if i < k {
      AboveSome(S, n, i, k - 1);
    }
  }

  ghost predicate Via(S: set<Node>, linked: seq<Node>, m: Node, k: nat)
    reads S
  {
    forall i: nat :: i < k ==> Above(S, m, i).Some? && Above(S, m, i).value in linked
  }

  /** Nodes joined one at a time, none closing a loop with those before it, hold no loop at all. */
  lemma {:induction false} NoLoops(S: set<Node>, linked: seq<Node>, j: nat, n: Node, k: nat)
    requires j <= |linked| && k > 0 && Above(S, n, k) == Some(n)
    requires forall i :: 0 <= i < |linked| ==> !Looped(S, linked[..i], linked[i])
    ensures !Via(S, linked[..j], n, k)
    decreases j
  {
    assert Above(S, n, 0) == Some(n);
    if j > 0 {
      var x := linked[j - 1];
      assert linked[..j] == linked[..j - 1] + [x];
      NoLoops(S, linked, j - 1, n, k);
      if at: nat :| at < k && Above(S, n, at) == Some(x) {
        ReturnsFrom(S, n, x, at, k);
        var first := FirstReturn(S, x, k);
        assert !LoopedIn(S, linked[..j - 1], x, first);
        var i: nat :| 0 < i < first && !(Above(S, x, i).Some? && Above(S, x, i).value in linked[..j - 1]);
        var back := Around(S, n, x, at, k, i);
      }
    }
  }

  lemma ReturnsFrom(S: set<Node>, n: Node, x: Node, at: nat, k: nat)
    requires at < k && Above(S, n, k) == Some(n) && Above(S, n, at) == Some(x)
    ensures Above(S, x, k) == Some(x)
  {
    hide Above;
    assert at + (k - at) == k && (k - at) + at == k;
    AboveSum(S, n, x, at, k - at);
    AboveSum(S, x, n, k - at, at);
  }

  /** What is above a node of a loop is on the loop. */
  lemma Around(S: set<Node>, n: Node, x: Node, at: nat, k: nat, i: nat) returns (back: nat)
    requires at < k && Above(S, n, k) == Some(n) && Above(S, n, at) == Some(x) && 0 < i < k
    ensures back < k && Above(S, n, back) == Above(S, x, i)
  {
    AboveSum(S, n, x, at, i);
    if at + i < k {
      back := at + i;
    } else {
      back := at + i - k;
      AboveSum(S, n, n, k, back);
    }
  }

  /** A copy's prototype is set exactly for the nodes linked so far, to the copy of what their own `__proto__`
    * refers to; and none of them closed a loop. */
  ghost predicate Linked(S: set<Node>, seen: map<Node, Node>, linked: seq<Node>)
    requires seen.Keys <= S
    reads S, seen.Values
  {
    && (forall i :: 0 <= i < |linked| ==> linked[i] in seen && !Looped(S, linked[..i], linked[i]))
    && (forall n :: n in seen ==> LinkedOne(seen, linked, n))
  }

  ghost predicate LinkedOne(seen: map<Node, Node>, linked: seq<Node>, n: Node)
    requires n in seen
    reads n, seen[n]
  {
    if n in linked then
      ProtoOf(n).Some? && ProtoOf(n).value in seen && Next(seen[n]) == Some(seen[ProtoOf(n).value])
    else
      Next(seen[n]) == None
  }

  /** One more node is linked, without closing a loop. */
  lemma LinkedGrows(S: set<Node>, seen: map<Node, Node>, linked: seq<Node>, n: Node)
    requires seen.Keys <= S && n in seen && !Looped(S, linked, n) && LinkedOne(seen, linked + [n], n)
    requires forall i :: 0 <= i < |linked| ==> linked[i] in seen && !Looped(S, linked[..i], linked[i])
    requires forall m :: m in seen && m != n ==> LinkedOne(seen, linked, m)
    ensures Linked(S, seen, linked + [n])
  {
    hide Looped;
    var grown := linked + [n];
    forall i | 0 <= i < |grown|
      ensures grown[i] in seen && !Looped(S, grown[..i], grown[i])
    {
      assert grown[..i] == linked[..i];
    }
    assert linked[..|linked|] == linked;
    forall m | m in seen
      ensures LinkedOne(seen, grown, m)
    {
    }
  }

  /** The chains of the copies follow the own `__proto__` references of linked nodes. */
  lemma {:induction false} ChainFollows(S: set<Node>, seen: map<Node, Node>, linked: seq<Node>, m: Node, k: nat)
    requires seen.Keys <= S && Linked(S, seen, linked) && m in seen
    ensures Via(S, linked, m, k) ==>
              Above(S, m, k).Some? && Above(S, m, k).value in seen
                  && ChainAt(seen.Values, seen[m], k) == Some(seen[Above(S, m, k).value])
    ensures !Via(S, linked, m, k) ==> ChainAt(seen.Values, seen[m], k) == None
  {
    hide Looped;
    if k > 0 {
      ChainFollows(S, seen, linked, m, k - 1);
      if Via(S, linked, m, k - 1) {
        var y := Above(S, m, k - 1).value;
        assert Via(S, linked, m, k) <==> y in linked;
        assert seen[y] in seen.Values;
      } else {
        assert !Via(S, linked, m, k);
      }
    }
  }

  /** Setting one more prototype is refused exactly when it closes a loop with those set before. */
  lemma RefusedIffLooped(S: set<Node>, seen: map<Node, Node>, linked: seq<Node>, n: Node, m: Node)
    requires seen.Keys <= S && Linked(S, seen, linked) && Injective(seen)
    requires n in seen && m in seen && ProtoOf(n) == Some(m)
    ensures IsAbove(seen.Values, seen[n], seen[m]) <==> Looped(S, linked, n)
  {
    hide Linked, ChainAt;
    assert Above(S, n, 0) == Some(n) && Above(S, n, 1) == Some(m);
    if k: nat :| ChainAt(seen.Values, seen[m], k) == Some(seen[n]) {
      ChainFollows(S, seen, linked, m, k);
      AboveSum(S, n, m, 1, k);
      forall i: nat | 0 < i < k + 1 ensures Above(S, n, i).Some? && Above(S, n, i).value in linked {
        AboveSum(S, n, m, 1, i - 1);
      }
      assert LoopedIn(S, linked, n, k + 1);
    }
    if k: nat :| k > 0 && LoopedIn(S, linked, n, k) {
      AboveSum(S, n, m, 1, k - 1);
      forall i: nat | i < k - 1 ensures Above(S, m, i).Some? && Above(S, m, i).value in linked {
        AboveSum(S, n, m, 1, i);
        assert Above(S, n, 1 + i).Some?;
      }
      ChainFollows(S, seen, linked, m, k - 1);
    }
  }

  /** Keys are unique, so a copy has no prototype before its `__proto__` is stored, and its node is not linked. */
  lemma FirstProto(node: Node, i: nat)
    requires i < |node.items| && node.items[i].key == PROTO && UniqueKeys(node.kind, node.items) && node.kind == Plain
    ensures Find(node.items, PROTO) == i && !HasProto(node.items[..i])
  {
  }

  lemma CopiesGoUp(S: set<Node>, seen: map<Node, Node>, linked: seq<Node>)
    requires seen.Keys <= S && Linked(S, seen, linked)
    ensures Upward(seen.Values)
  {
    hide Looped;
  }

  lemma OwnCopy(seen: map<Node, Node>, node: Node)
    requires Injective(seen) && node in seen
    ensures forall n :: n in seen && n != node ==> seen[n] != seen[node]
  {
  }

  lemma ImageIsProto(seen: map<Node, Node>, key: Value)
    requires Has(seen, key)
    ensures Image(seen, key) == PROTO <==> key == PROTO
  {
  }

  lemma LoopIsCycle(S: set<Node>, L: seq<Node>, n: Node)
    requires n in S && Looped(S, L, n)
    ensures ProtoCycle(S)
  {
  }

  /** A finished object with an own `__proto__` that refers to an object has its prototype set. */
  lemma {:induction false} ProtoFound(seen: map<Node, Node>, items: seq<Item>, i: nat)
    requires i < |items| && items[i].key == PROTO && items[i].value.Ref? && HasAll(seen, items)
        && UniqueKeys(Plain, items)
    ensures Proto(Plain, seen, items) == Some(Image(seen, items[i].value))
  {
    var rest := items[..|items| - 1];
    if i < |rest| {
      ProtoFound(seen, rest, i);
    }
  }

  lemma OwnProtoLinks(S: set<Node>, seen: map<Node, Node>, linked: seq<Node>, n: Node)
    requires seen.Keys <= S && Linked(S, seen, linked) && n in seen && Done(seen, n)
    requires UniqueKeys(n.kind, n.items) && ProtoOf(n).Some?
    ensures n in linked
  {
    hide Looped, Images, Kept;
    ProtoFound(seen, n.items, Find(n.items, PROTO));
  }

  /** A clone that was finished had no cycle of own `__proto__` references to copy. */
  lemma FinishedHasNoCycle(S: set<Node>, seen: map<Node, Node>, linked: seq<Node>)
    requires seen.Keys == S && Linked(S, seen, linked) && Closed(S)
    requires forall n :: n in S ==> UniqueKeys(n.kind, n.items) && Done(seen, n)
    ensures !ProtoCycle(S)
  {
    hide Done, UniqueKeys, Closed, ProtoOf, Looped;
    if n, k: nat :| n in S && k > 0 && Above(S, n, k) == Some(n) {
      forall i: nat | i < k ensures Above(S, n, i).Some? && Above(S, n, i).value in linked {
        AboveSome(S, n, i + 1, k);
        OwnProtoLinks(S, seen, linked, Above(S, n, i).value);
      }
      assert linked[..|linked|] == linked;
      NoLoops(S, linked, |linked|, n, k);
    }
  }

  class Cloner {
    var seen: map<Node, Node>
    /** The nodes whose copies got an object as their prototype, in order. */
    ghost var linked: seq<Node>

    constructor ()
      ensures seen == map[] && linked == []
    {
      seen, linked := map[], [];
    }

    /** `S` holds the input graph; the copies of the nodes in `open` are not finished yet. */
    ghost predicate Valid(S: set<Node>, open: set<Node>)
      reads this, S, seen.Values
    {
      && open <= seen.Keys <= S
      && seen.Values !! S
      && Injective(seen)
      && Closed(S)
      && (forall n :: n in S ==> UniqueKeys(n.kind, n.items))
      && (forall n :: n in seen && n !in open ==> Done(seen, n))
      && Linked(S, seen, linked)
    }

    /** The copy of `node` holds the first `i` items. */
    ghost predicate Copying(node: Node, i: nat)
      reads this, node, seen.Values
    {
      && node in seen && i <= |node.items|
      && var copy := seen[node];
      && copy.kind == node.kind
      && HasAll(seen, node.items[..i])
      && copy.items == Images(seen, Kept(node.kind, node.items[..i]))
      && copy.proto == Proto(node.kind, seen, node.items[..i])
    }

    /** Copies what `input` refers to, unless its copy is already made or under way; None when it throws, which
      * only a cycle of own `__proto__` references makes it. */
    method Clone(input: Value, ghost S: set<Node>, ghost open: set<Node>) returns (v: Option<Value>)
      requires Valid(S, open)
      requires input.Ref? ==> input.node in S
      modifies this
      ensures v.None? ==> ProtoCycle(S)
      ensures v.Some? ==>
        && Valid(S, open) && Extends(old(seen), seen)
        && (forall n :: n in seen && n !in old(seen) ==> fresh(seen[n]))
        && Has(seen, input) && v.value == Image(seen, input)
      decreases S - seen.Keys, 0
    {
      hide Images, Kept, Proto, UniqueKeys, Closed, Injective, Done, Linked, ProtoCycle, Copying, HasAll;
      if input.Prim? {
        return Some(input);
      }
      var node := input.node;
      if node in seen {
        return Some(Ref(seen[node]));
      }
      var copy := Begin(node, S, open);
      var i := 0;
      while i < |node.items|
        invariant 0 <= i <= |node.items|
        invariant Valid(S, open + {node})
        invariant Extends(old(seen), seen) && node in seen && seen[node] == copy
        invariant forall n :: n in seen && n !in old(seen) ==> fresh(seen[n])
        invariant Copying(node, i)
      {
        var ok := CopyItem(node, i, S, open + {node});
        if !ok {
          return None;
        }
        i := i + 1;
      }
      Finish(node, S, open);
      v := Some(Ref(copy));
    }

    /** An empty copy of a node not seen before, remembered before anything it refers to is copied. */
    method Begin(node: Node, ghost S: set<Node>, ghost open: set<Node>) returns (copy: Node)
      requires Valid(S, open) && node in S && node !in seen
      modifies this
      ensures fresh(copy) && seen == old(seen)[node := copy]
      ensures Valid(S, open + {node}) && Copying(node, 0)
    {
      hide Images, Kept, Proto, UniqueKeys, Closed, Looped, ProtoOf, Find;
      copy := new Node(node.kind);
      seen := seen[node := copy];
      forall n | n in old(seen) && n !in open
        ensures Done(seen, n)
      {
        DoneGrows(old(seen), seen, n);
      }
      NoItems(seen, node);
    }

    /** Copies one item, and stores it in the copy of `node`. */
    method CopyItem(node: Node, i: nat, ghost S: set<Node>, ghost open: set<Node>) returns (ok: bool)
      requires Valid(S, open) && node in open && i < |node.items| && Copying(node, i)
      modifies this, seen[node]
      ensures !ok ==> ProtoCycle(S)
      ensures ok ==>
        && Valid(S, open) && Copying(node, i + 1) && Extends(old(seen), seen)
        && (forall n :: n in seen && n !in old(seen) ==> fresh(seen[n]))
      decreases S - seen.Keys, 1
    {
      hide Images, Kept, Proto, UniqueKeys, Injective, Done, HasAll, Linked, ProtoCycle;
      var item := node.items[i];
      ghost var s0 := seen;
      var key := Clone(item.key, S, open);
      if key.None? {
        return false;
      }
      ghost var s1 := seen;
      ImagesGrow(node.kind, s0, s1, node.items[..i]);
      var value := Clone(item.value, S, open);
      if value.None? {
        return false;
      }
      ImagesGrow(node.kind, s1, seen, node.items[..i]);
      ok := Store(node, i, key.value, value.value, S, open);
    }

    /** One item's image goes into the copy; false when the assignment throws. */
    method Store(node: Node, i: nat, key: Value, value: Value, ghost S: set<Node>, ghost open: set<Node>)
      returns (ok: bool)
      requires Valid(S, open) && node in open && i < |node.items| && Copying(node, i)
      requires Has(seen, node.items[i].key) && key == Image(seen, node.items[i].key)
      requires Has(seen, node.items[i].value) && value == Image(seen, node.items[i].value)
      modifies seen[node], this`linked
      ensures !ok ==> ProtoCycle(S)
      ensures ok ==> Valid(S, open) && Copying(node, i + 1)
    {
      hide *;
      ImageIsProto(seen, node.items[i].key);
      if node.kind == Plain && key == PROTO && value.Ref? {
        ok := StoreProto(node, i, key, value, S, open);
      } else {
        StoreItem(node, i, key, value, S, open);
        ok := true;
      }
    }

    method StoreItem(node: Node, i: nat, key: Value, value: Value, ghost S: set<Node>, ghost open: set<Node>)
      requires Valid(S, open) && node in open && i < |node.items| && Copying(node, i)
      requires Has(seen, node.items[i].key) && key == Image(seen, node.items[i].key)
      requires Has(seen, node.items[i].value) && value == Image(seen, node.items[i].value)
      requires !(node.kind == Plain && key == PROTO && value.Ref?)
      modifies seen[node]
      ensures Valid(S, open) && Copying(node, i + 1)
    {
      hide Looped, Above, ProtoOf, Done, Closed, UniqueKeys, Images, Kept, Proto, Injective, IsAbove, ChainAt,
        HasAll;
      OwnCopy(seen, node);
      PutAdds(node.kind, seen, node.items, i);
      var copy := seen[node];
      CopiesGoUp(S, seen, linked);
      if node.kind == Plain && key == PROTO {
        NotLinkedYet(S, node, i);
      }
      var threw := copy.Put(key, value, seen.Values);
      forall n | n in seen && n != node
        ensures seen[n] != copy && (n !in open ==> Done(seen, n)) && Next(seen[n]) == old(Next(seen[n]))
      {
      }
    }

    /** The image of what an own `__proto__` refers to becomes the copy's prototype, unless that closes a loop. */
    method StoreProto(node: Node, i: nat, key: Value, value: Value, ghost S: set<Node>, ghost open: set<Node>)
      returns (ok: bool)
      requires Valid(S, open) && node in open && i < |node.items| && Copying(node, i)
      requires Has(seen, node.items[i].key) && key == Image(seen, node.items[i].key)
      requires Has(seen, node.items[i].value) && value == Image(seen, node.items[i].value)
      requires node.kind == Plain && key == PROTO && value.Ref? && node.items[i].key == PROTO
      modifies seen[node], this`linked
      ensures !ok ==> ProtoCycle(S)
      ensures ok ==> Valid(S, open) && Copying(node, i + 1)
    {
      hide Looped, Linked, ProtoCycle, ProtoOf, Done, Closed, UniqueKeys, Images, Kept, Proto, Injective, Find;
      OwnCopy(seen, node);
      PutAdds(node.kind, seen, node.items, i);
      NotLinkedYet(S, node, i);
      ok := LinkCopy(node, node.items[i].value.node, value, S);
      if ok {
        forall n | n in seen && n != node && n !in open
          ensures Done(seen, n)
        {
        }
      }
    }

    /** A copy's prototype is set; refused when that closes a loop. */
    method LinkCopy(node: Node, m: Node, value: Value, ghost S: set<Node>) returns (ok: bool)
      requires seen.Keys <= S && seen.Values !! S && Injective(seen) && Linked(S, seen, linked)
      requires node in seen && node.kind == Plain && seen[node].kind == Plain && node !in linked
      requires m in seen && ProtoOf(node) == Some(m) && value == Ref(seen[m])
      modifies seen[node], this`linked
      ensures !ok ==> ProtoCycle(S)
      ensures ok ==> Linked(S, seen, linked)
      ensures ok ==> seen[node].proto == Some(value) && seen[node].items == old(seen[node].items)
    {
      hide Looped, ProtoCycle, ProtoOf, Injective, IsAbove, Find;
      OwnCopy(seen, node);
      CopiesGoUp(S, seen, linked);
      RefusedIffLooped(S, seen, linked, node, m);
      var threw := seen[node].Put(PROTO, value, seen.Values);
      ok := !threw;
      if threw {
        LoopIsCycle(S, linked, node);
        return;
      }
      assert forall n :: n in seen && n != node ==> LinkedOne(seen, linked, n);
      LinkedGrows(S, seen, linked, node);
      linked := linked + [node];
    }

    /** Keys are unique, so before its own `__proto__` is stored an object's copy has no prototype set. */
    lemma NotLinkedYet(S: set<Node>, node: Node, i: nat)
      requires seen.Keys <= S && Linked(S, seen, linked) && node in seen && node.kind == Plain && i < |node.items|
      requires UniqueKeys(node.kind, node.items) && node.items[i].key == PROTO && Copying(node, i)
      ensures node !in linked && (node.items[i].value.Ref? ==> ProtoOf(node) == Some(node.items[i].value.node))
    {
      hide Looped, Images, Kept;
      FirstProto(node, i);
      NoProto(node.kind, seen, node.items[..i]);
    }

    ghost method Finish(node: Node, S: set<Node>, open: set<Node>)
      requires Valid(S, open + {node}) && Copying(node, |node.items|) && open <= seen.Keys
      ensures Valid(S, open)
    {
      assert node.items[..|node.items|] == node.items;
    }
  }

  lemma NoItems(seen: map<Node, Node>, node: Node)
    ensures HasAll(seen, node.items[..0])
    ensures Images(seen, Kept(node.kind, node.items[..0])) == [] && Proto(node.kind, seen, node.items[..0]) == None
  {
  }

  // -------------------------------------------------------------- reachable

  /** The nodes of `S` at most `k` references away from `root`. */
  ghost function Within(S: set<Node>, root: Node, k: nat): set<Node>
    reads S
  {
    if k == 0 then {root} else Within(S, root, k - 1) + Referred(S, Within(S, root, k - 1))
  }

  ghost function Referred(S: set<Node>, from: set<Node>): set<Node>
    reads S
  {
    set c | c in S && exists n, i :: n in from && n in S && Refers(n, i, c)
  }

  ghost predicate Refers(n: Node, i: int, c: Node)
    reads n
  {
    0 <= i < |n.items| && (n.items[i].key == Ref(c) || n.items[i].value == Ref(c))
  }

  ghost predicate Reaches(S: set<Node>, v: Value, n: Node)
    reads S
  {
    v.Ref? && exists k: nat :: n in Within(S, v.node, k)
  }

  ghost function ReachableFrom(S: set<Node>, v: Value): set<Node>
    reads S
  {
    set n | n in S && Reaches(S, v, n)
  }

  lemma ReachableIsClosed(S: set<Node>, v: Value)
    requires Closed(S) && (v.Ref? ==> v.node in S)
    ensures Closed(ReachableFrom(S, v))
    ensures v.Ref? ==> Reaches(S, v, v.node)
  {
    if v.Ref? {
      assert v.node in Within(S, v.node, 0);
    }
    var R := ReachableFrom(S, v);
    forall n, i, c | n in R && Refers(n, i, c)
      ensures c in R
    {
      var k: nat :| n in Within(S, v.node, k);
      assert c in Referred(S, Within(S, v.node, k));
      assert c in Within(S, v.node, k + 1);
    }
    forall n | n in R
      ensures forall i :: 0 <= i < |n.items| ==>
        && (n.items[i].key.Ref? ==> n.items[i].key.node in R)
        && (n.items[i].value.Ref? ==> n.items[i].value.node in R)
    {
      forall i | 0 <= i < |n.items|
        ensures n.items[i].key.Ref? ==> n.items[i].key.node in R
        ensures n.items[i].value.Ref? ==> n.items[i].value.node in R
      {
        if n.items[i].key.Ref? {
          assert Refers(n, i, n.items[i].key.node);
        }
        if n.items[i].value.Ref? {
          assert Refers(n, i, n.items[i].value.node);
        }
      }
    }
  }

  lemma {:induction false} ReachableIsSeen(S: set<Node>, v: Value, seen: map<Node, Node>, k: nat)
    requires v.Ref? && Has(seen, v)
    requires forall n :: n in seen ==> Done(seen, n)
    ensures Within(S, v.node, k) <= seen.Keys
  {
    hide Images, Kept, Proto;
    if k > 0 {
      ReachableIsSeen(S, v, seen, k - 1);
      forall c | c in Referred(S, Within(S, v.node, k - 1))
        ensures c in seen
      {
        var n, i :| n in Within(S, v.node, k - 1) && n in S && Refers(n, i, c);
        assert Done(seen, n) && n.items[i] in n.items;
      }
    }
  }

  datatype TypeError = CyclicPrototype

  /** It throws exactly when own `__proto__` references of what `value` reaches go round in a cycle. Else every node
    * that `value` reaches is copied, once, to a new node, and no other; the copies refer to copies. `S` is any
    * finite set that holds the graph. */
  method StructuredClone(value: Value, ghost S: set<Node>)
    returns (r: Result<Value, TypeError>, ghost copies: map<Node, Node>)
    requires Closed(S) && (value.Ref? ==> value.node in S)
    requires forall n :: n in S ==> UniqueKeys(n.kind, n.items)
    ensures r.Err? <==> ProtoCycle(ReachableFrom(S, value))
    ensures r.Ok? ==>
      && Has(copies, value) && r.value == Image(copies, value)
      && (forall n :: n in copies <==> n in S && Reaches(S, value, n))
      && Injective(copies) && forall n :: n in copies ==> fresh(copies[n]) && Done(copies, n)
  {
    hide ProtoCycle, Linked, Images, Kept, Proto, HasAll, UniqueKeys, Find;
    ghost var R := ReachableFrom(S, value);
    ReachableIsClosed(S, value);
    NothingLinked(R);
    var cloner := new Cloner();
    var v := cloner.Clone(value, R, {});
    copies := cloner.seen;
    if v.None? {
      return Err(CyclicPrototype), copies;
    }
    ReachableAreSeen(S, value, copies);
    assert copies.Keys == R;
    FinishedHasNoCycle(R, copies, cloner.linked);
    r := Ok(v.value);
  }

  const KEPT: Item := Item(Prim(Text("a")), Prim(Number(1)))

  lemma OwnPrototype(o: Node)
    requires o.kind == Plain && o.items == [Item(PROTO, Ref(o)), KEPT]
    ensures Closed({o}) && UniqueKeys(o.kind, o.items) && ProtoCycle(ReachableFrom({o}, Ref(o)))
  {
    hide Within, Reaches;
    assert PROTO != KEPT.key by { assert |"__proto__"| != |"a"|; }
    assert Find(o.items, PROTO) == 0 && ProtoOf(o) == Some(o);
    ReachableIsClosed({o}, Ref(o));
    ghost var R := ReachableFrom({o}, Ref(o));
    assert o in R && Above(R, o, 0) == Some(o) && Above(R, o, 1) == Some(o);
  }

  /** An object whose own `__proto__` refers to itself cannot be cloned: its copy would be its own prototype. */
  method CyclicPrototypeThrows() returns (r: Result<Value, TypeError>)
    ensures r == Err(CyclicPrototype)
  {
    hide *;
    var o := new Node(Plain);
    o.items := [Item(PROTO, Ref(o)), KEPT];
    OwnPrototype(o);
    ghost var copies;
    r, copies := StructuredClone(Ref(o), {o});
    OwnPrototype(o);
    assert r.Err? && r.error.CyclicPrototype?;
  }

  lemma NothingLinked(S: set<Node>)
    ensures Linked(S, map[], [])
  {
  }

  lemma ReachableAreSeen(S: set<Node>, v: Value, seen: map<Node, Node>)
    requires Has(seen, v) && forall n :: n in seen ==> Done(seen, n)
    ensures forall n :: Reaches(S, v, n) ==> n in seen
  {
    hide Images, Kept, Proto;
    forall n | Reaches(S, v, n) ensures n in seen {
      var k: nat :| n in Within(S, v.node, k);
      ReachableIsSeen(S, v, seen, k);
    }
  }

  // ------------------------------------------------------------ isomorphism

  /** The copies have the same kinds and, item by item, the images of the same keys and values. */
  ghost predicate Isomorphic(copies: map<Node, Node>)
    reads copies.Keys, copies.Values
  {
    forall n :: n in copies ==>
      && copies[n].kind == n.kind && copies[n].proto == None
      && HasAll(copies, n.items) && copies[n].items == Images(copies, n.items)
  }

  /** The clone is an isomorphic graph exactly when no object it copies has an own property named `__proto__`. */
  lemma CloneIsIsomorphicIff(copies: map<Node, Node>)
    requires forall n :: n in copies ==> Done(copies, n)
    ensures Isomorphic(copies) <==> forall n :: n in copies ==> !(n.kind == Plain && HasProto(n.items))
  {
    forall n | n in copies
      ensures copies[n].items == Images(copies, n.items) && copies[n].proto == None
              <==> !(n.kind == Plain && HasProto(n.items))
    {
      assert Done(copies, n);
      if !(n.kind == Plain && HasProto(n.items)) {
        NoProto(n.kind, copies, n.items);
      }
    }
  }

  /** What stands in a copy for a value: a primitive for itself, a reference for the copy of what it refers to. */
  ghost predicate StandsFor(copies: map<Node, Node>, v: Value, copy: Value)
  {
    if v.Ref? then v.node in copies && copy == Ref(copies[v.node]) else copy == v
  }

  ghost predicate StandFor(copies: map<Node, Node>, items: seq<Item>, copy: seq<Item>)
  {
    |copy| == |items| && forall i :: 0 <= i < |items| ==>
      StandsFor(copies, items[i].key, copy[i].key) && StandsFor(copies, items[i].value, copy[i].value)
  }

  /** A finished copy, item by item in order: all the items, but an object's own `__proto__`, in whose place an object
    * or null becomes the prototype and anything else nothing. */
  lemma CopiedItemByItem(copies: map<Node, Node>, n: Node, at: nat)
    requires n in copies && Done(copies, n) && UniqueKeys(n.kind, n.items)
    ensures copies[n].kind == n.kind
    ensures !(n.kind == Plain && HasProto(n.items)) ==>
              StandFor(copies, n.items, copies[n].items) && copies[n].proto == None
    ensures n.kind == Plain && at < |n.items| && n.items[at].key == PROTO ==>
              && StandFor(copies, n.items[..at] + n.items[at + 1..], copies[n].items)
              && if n.items[at].value.Ref? || n.items[at].value == Prim(Null)
                 then copies[n].proto.Some? && StandsFor(copies, n.items[at].value, copies[n].proto.value)
                 else copies[n].proto == None
  {
    hide UniqueKeys;
    if !(n.kind == Plain && HasProto(n.items)) {
      NoProto(n.kind, copies, n.items);
    } else if at < |n.items| && n.items[at].key == PROTO {
      OneProto(copies, n.items, at);
    }
  }

  /** An object's items with one of them its own `__proto__`. */
  lemma {:induction false} OneProto(copies: map<Node, Node>, items: seq<Item>, at: nat)
    requires HasAll(copies, items) && UniqueKeys(Plain, items) && at < |items| && items[at].key == PROTO
    ensures Kept(Plain, items) == items[..at] + items[at + 1..]
    ensures var value := items[at].value;
            Proto(Plain, copies, items) ==
            if value.Ref? || value == Prim(Null) then Some(Image(copies, value)) else None
    decreases |items|
  {
    var last := |items| - 1;
    if at < last {
      OneProto(copies, items[..last], at);
      assert items[..at] + items[at + 1..] == (items[..last][..at] + items[..last][at + 1..]) + [items[last]];
    } else {
      assert forall i :: 0 <= i < last ==> items[i].key != PROTO;
      NoProto(Plain, copies, items[..last]);
      assert items[at + 1..] == [];
    }
  }

  lemma NoProto(kind: Kind, seen: map<Node, Node>, items: seq<Item>)
    requires HasAll(seen, items) && !(kind == Plain && HasProto(items))
    ensures Proto(kind, seen, items) == None
  {
    if items != [] {
      var rest := items[..|items| - 1];
      assert kind == Plain && HasProto(rest) ==> HasProto(items);
      NoProto(kind, seen, rest);
    }
  }

  /** `JSON.parse('{"__proto__":1}')` has one property; its clone has none. */
  lemma OwnProtoIsLost(copies: map<Node, Node>, n: Node)
    requires n in copies && Done(copies, n)
    requires n.kind == Plain && n.items == [Item(PROTO, Prim(Number(1)))]
    ensures copies[n].items == [] && copies[n].proto == None && !Isomorphic(copies)
  {
    var rest := n.items[..|n.items| - 1];
    assert rest == [] && n.items[0] in n.items;
    assert Proto(n.kind, copies, rest) == None;
  }
}
