/** A chained hash table on the heap. */
module HashTable {
  import opened Common
  import opened StringHash

  const INITIAL_SIZE := 3

  /** The array length after `k` doublings. */
  function SizeAfter(k: nat): (size: nat)
    ensures size >= INITIAL_SIZE
  {
    if k == 0 then INITIAL_SIZE else 2 * SizeAfter(k - 1)
  }

  /** The index of a key in an array of `size` lists. */
  function Bucket(key: Bytes, size: nat): (b: nat)
    requires size > 0
    ensures b < size
  {
    Hash(key) % size
  }

  class Elem {
    const key: Bytes
    var value: Bytes
    var next: Elem?

    constructor (key: Bytes, value: Bytes, next: Elem?)
      ensures this.key == key && this.value == value && this.next == next
    {
      this.key, this.value, this.next := key, value, next;
    }
  }

  /** `head` starts a null-terminated list whose nodes are exactly `chain`, each met once. */
  ghost predicate IsList(head: Elem?, chain: seq<Elem>)
    reads chain`next
  {
    && head == (if chain == [] then null else chain[0])
    && (forall j {:trigger chain[j].next} :: 0 <= j < |chain| ==>
          chain[j].next == (if j + 1 < |chain| then chain[j + 1] else null))
    && (forall j, k :: 0 <= j < k < |chain| ==> chain[j] != chain[k])
  }

  lemma ListTail(head: Elem, chain: seq<Elem>)
    requires IsList(head, chain)
    ensures chain != [] && head == chain[0] && head !in chain[1..] && IsList(head.next, chain[1..])
  {
    assert chain[0].next == (if 1 < |chain| then chain[1] else null);
    forall j | 0 <= j < |chain[1..]|
      ensures chain[1..][j].next == (if j + 1 < |chain[1..]| then chain[1..][j + 1] else null)
    {
      assert chain[1..][j] == chain[j + 1];
    }
  }

  lemma ListCons(head: Elem, chain: seq<Elem>)
    requires head !in chain && IsList(head.next, chain)
    ensures IsList(head, [head] + chain)
  {
    var longer := [head] + chain;
    forall j | 0 <= j < |longer|
      ensures longer[j].next == (if j + 1 < |longer| then longer[j + 1] else null)
    {
      if j > 0 {
        assert longer[j] == chain[j - 1];
      }
    }
  }

  /** The nodes of `repr` are distributed over `chains` by the hash of their keys. */
  ghost predicate Placed(chains: seq<seq<Elem>>, repr: set<Elem>) {
    && |chains| > 0
    && (forall i, e :: 0 <= i < |chains| && e in chains[i] ==> e in repr && Bucket(e.key, |chains|) == i)
    && (forall e :: e in repr ==> e in chains[Bucket(e.key, |chains|)])
  }

  lemma PlacedAt(chains: seq<seq<Elem>>, repr: set<Elem>, i: nat)
    requires Placed(chains, repr) && i < |chains|
    ensures forall e :: e in chains[i] <==> e in repr && Bucket(e.key, |chains|) == i
  {
  }

  lemma PlacedEmpty(size: nat)
    requires size > 0
    ensures Placed(seq(size, _ => []), {})
  {
  }

  ghost function Without(chain: seq<Elem>, j: nat): seq<Elem>
    requires j < |chain|
  {
    chain[..j] + chain[j + 1..]
  }

  lemma PlacedRemove(chains: seq<seq<Elem>>, repr: set<Elem>, b: nat, j: nat)
    requires Placed(chains, repr) && b < |chains| && j < |chains[b]|
    requires forall i, k :: 0 <= i < k < |chains[b]| ==> chains[b][i] != chains[b][k]
    ensures Placed(chains[b := Without(chains[b], j)], repr - {chains[b][j]})
  {
    WithoutElems(chains[b], j);
    var gone := chains[b][j];
    var rest := chains[b := Without(chains[b], j)];
    assert gone in chains[b];
    hide Bucket, Without;
    forall i, e | 0 <= i < |rest| && e in rest[i]
      ensures e in repr - {gone} && Bucket(e.key, |chains|) == i
    {
      assert e in chains[i];
    }
    forall e | e in repr - {gone}
      ensures e in rest[Bucket(e.key, |chains|)]
    {
      assert e in chains[Bucket(e.key, |chains|)];
    }
  }

  lemma WithoutElems(chain: seq<Elem>, j: nat)
    requires j < |chain| && forall i, k :: 0 <= i < k < |chain| ==> chain[i] != chain[k]
    ensures forall e :: e in Without(chain, j) <==> e in chain && e != chain[j]
  {
    forall e | e in chain && e != chain[j]
      ensures e in Without(chain, j)
    {
      var i :| 0 <= i < |chain| && chain[i] == e;
      assert Without(chain, j)[if i < j then i else i - 1] == e;
    }
  }

  lemma PlacedAdd(chains: seq<seq<Elem>>, repr: set<Elem>, e: Elem)
    requires Placed(chains, repr)
    ensures var b := Bucket(e.key, |chains|); Placed(chains[b := [e] + chains[b]], repr + {e})
  {
  }

  /** `nodes` finds the one node of each key. */
  ghost predicate Indexed(nodes: map<Bytes, Elem>, repr: set<Elem>) {
    && (forall k :: k in nodes ==> nodes[k] in repr && nodes[k].key == k)
    && (forall e :: e in repr ==> e.key in nodes && nodes[e.key] == e)
  }

  lemma IndexedAdd(nodes: map<Bytes, Elem>, repr: set<Elem>, e: Elem)
    requires Indexed(nodes, repr) && e.key !in nodes
    ensures Indexed(nodes[e.key := e], repr + {e}) && |nodes[e.key := e]| == |nodes| + 1
    ensures Values(nodes[e.key := e]) == Values(nodes)[e.key := e.value]
  {
  }

  lemma IndexedRemove(nodes: map<Bytes, Elem>, repr: set<Elem>, key: Bytes)
    requires Indexed(nodes, repr) && key in nodes
    ensures Indexed(nodes - {key}, repr - {nodes[key]}) && |nodes - {key}| == |nodes| - 1
    ensures Values(nodes - {key}) == Values(nodes) - {key}
  {
    assert nodes == (nodes - {key})[key := nodes[key]];
  }

  lemma ValuesKeys(nodes: map<Bytes, Elem>, key: Bytes)
    ensures key in Values(nodes) <==> key in nodes
    ensures key !in nodes ==> Values(nodes) - {key} == Values(nodes)
  {
  }

  ghost function Values(nodes: map<Bytes, Elem>): map<Bytes, Bytes>
    reads nodes.Values`value
  {
    map k | k in nodes :: nodes[k].value
  }

  /** The lists of an array hold the nodes of `repr`, each in its own bucket. */
  ghost predicate Spread(elems: array<Elem?>, chains: seq<seq<Elem>>, repr: set<Elem>)
    reads elems, repr`next
  {
    && elems.Length == |chains| && Placed(chains, repr)
    && forall i :: 0 <= i < elems.Length ==> IsList(elems[i], chains[i])
  }

  class HashTable {
    var size: nat
    var nElems: nat
    var elems: array<Elem?>

    ghost var chains: seq<seq<Elem>>
    ghost var repr: set<Elem>
    ghost var nodes: map<Bytes, Elem>
    ghost var doublings: nat

    /** The map the table stands for. */
    ghost function Model(): map<Bytes, Bytes>
      reads `nodes, nodes.Values`value
    {
      Values(nodes)
    }

    ghost predicate Linked()
      reads this, elems, repr
    {
      && Spread(elems, chains, repr) && Indexed(nodes, repr) && size == elems.Length
      && nElems == |nodes| && size == SizeAfter(doublings)
    }

    /** The load never gets more than one element past three quarters. */
    ghost predicate Valid()
      reads this, elems, repr
    {
      Linked() && 4 * nElems <= 3 * size + 4
    }

    constructor ()
      ensures Valid() && fresh(elems) && fresh(repr) && Model() == map[] && size == INITIAL_SIZE
    {
      size, nElems := INITIAL_SIZE, 0;
      elems := new Elem?[INITIAL_SIZE](_ => null);
      chains, repr, nodes, doublings := [[], [], []], {}, map[], 0;
    }

    /** Walk a list up to the node with `key`. */
    static method FindIn(head: Elem?, ghost chain: seq<Elem>, key: Bytes)
      returns (prev: Elem?, list: Elem?, ghost j: nat)
      requires IsList(head, chain)
      ensures list == null ==> forall k :: 0 <= k < |chain| ==> chain[k].key != key
      ensures list != null ==> j < |chain| && chain[j] == list && list.key == key
      ensures list != null ==> prev == (if j == 0 then null else chain[j - 1])
    {
      prev, list, j := null, head, 0;
      while list != null
        invariant j <= |chain| && list == (if j < |chain| then chain[j] else null)
        invariant prev == (if j == 0 then null else chain[j - 1])
        invariant forall k :: 0 <= k < j ==> chain[k].key != key
        decreases |chain| - j
      {
        if list.key == key {
          return;
        }
        assert chain[j].next == (if j + 1 < |chain| then chain[j + 1] else null);
        prev, list, j := list, list.next, j + 1;
      }
    }

    /** A key is in the map exactly when the chain of its bucket has a node for it. */
    lemma KeyInChain(key: Bytes)
      requires Placed(chains, repr) && Indexed(nodes, repr)
      ensures key in nodes ==> nodes[key] in chains[Bucket(key, |chains|)]
      ensures forall i, e :: 0 <= i < |chains| && e in chains[i] ==> e.key in nodes && nodes[e.key] == e
    {
    }

    /** Take `list` off its old chain and push it on the chain of its new bucket. */
    static method Relink(list: Elem, elems: array<Elem?>, ghost chains: seq<seq<Elem>>, hash: nat)
      requires elems.Length == |chains| && hash < |chains|
      requires forall b :: 0 <= b < |chains| ==> IsList(elems[b], chains[b]) && list !in chains[b]
      modifies list`next, elems
      ensures forall b :: 0 <= b < |chains| ==> IsList(elems[b], chains[hash := [list] + chains[hash]][b])
    {
      ghost var head, chain := elems[hash], chains[hash];
      assert IsList(head, chain);
      list.next := elems[hash];
      elems[hash] := list;
      assert IsList(head, chain);
      ListCons(list, chain);
      forall b | 0 <= b < |chains| && b != hash
        ensures IsList(elems[b], chains[b])
      {
        assert old(IsList(elems[b], chains[b]));
      }
    }

    /** Relink one old chain, node by node. */
    static method MoveChain(head: Elem?, ghost chain: seq<Elem>, newElems: array<Elem?>,
                            ghost chains0: seq<seq<Elem>>, ghost done0: set<Elem>)
      returns (ghost newChains: seq<seq<Elem>>, ghost done: set<Elem>)
      requires newElems.Length == |chains0| && Placed(chains0, done0) && IsList(head, chain)
      requires forall b :: 0 <= b < |chains0| ==> IsList(newElems[b], chains0[b])
      requires forall e :: e in chain ==> e !in done0
      modifies chain`next, newElems
      ensures forall e :: e in done <==> e in done0 || e in chain
      ensures |newChains| == |chains0| && Placed(newChains, done)
      ensures forall b :: 0 <= b < |newChains| ==> IsList(newElems[b], newChains[b])
    {
      var list := head;
      ghost var rest := chain;
      newChains, done := chains0, done0;
      while list != null
        invariant IsList(list, rest) && forall e :: e in rest ==> e in chain && e !in done
        invariant forall e :: e in done <==> e in done0 || (e in chain && e !in rest)
        invariant |newChains| == |chains0| && Placed(newChains, done)
        invariant forall b :: 0 <= b < |newChains| ==> IsList(newElems[b], newChains[b])
        decreases |rest|
      {
        var h := StringHash.StringHash(list.key);
        var hash := h % newElems.Length;
        var next := list.next;
        ListTail(list, rest);
        Relink(list, newElems, newChains, hash);
        PlacedAdd(newChains, done, list);
        newChains := newChains[hash := [list] + newChains[hash]];
        done := done + {list};
        list, rest := next, rest[1..];
      }
    }

    /** Distribute every node over a fresh array of twice the size. */
    static method Rehash(elems: array<Elem?>, ghost chains: seq<seq<Elem>>, ghost repr: set<Elem>)
      returns (newElems: array<Elem?>, ghost newChains: seq<seq<Elem>>)
      requires Spread(elems, chains, repr)
      modifies repr`next
      ensures fresh(newElems) && newElems.Length == 2 * elems.Length && Spread(newElems, newChains, repr)
    {
      var size := elems.Length;
      newElems := new Elem?[2 * size](_ => null);
      newChains := seq(2 * size, _ => []);
      ghost var done: set<Elem> := {};
      PlacedEmpty(2 * size);
      hide Placed, Bucket, Hash;
      for i := 0 to size
        invariant forall k :: i <= k < size ==> IsList(elems[k], chains[k])
        invariant forall e :: e in done <==> e in repr && Bucket(e.key, size) < i
        invariant |newChains| == newElems.Length && Placed(newChains, done)
        invariant forall b :: 0 <= b < newElems.Length ==> IsList(newElems[b], newChains[b])
      {
        ghost var moved := done;
        newChains, done := MoveChain(elems[i], chains[i], newElems, newChains, done);
        PlacedAt(chains, repr, i);
      }
      assert done == repr;
    }

    lemma LinkedParts()
      ensures Linked() <==> && Spread(elems, chains, repr) && Indexed(nodes, repr) && size == elems.Length
                            && nElems == |nodes| && size == SizeAfter(doublings)
      ensures SizeAfter(doublings + 1) == 2 * SizeAfter(doublings) && Model() == Values(nodes)
      ensures Linked() ==> size == |chains| >= INITIAL_SIZE
    {
    }

    /** Double the array. Every node is relinked, none is copied or lost. */
    method Resize()
      requires Linked()
      modifies this, repr`next
      ensures Linked() && fresh(elems)
      ensures size == 2 * old(size) && nElems == old(nElems)
      ensures Model() == old(Model()) && repr == old(repr)
    {
      hide *;
      LinkedParts();
      elems, chains := Rehash(elems, chains, repr);
      size, doublings := 2 * size, doublings + 1;
      LinkedParts();
    }

    /** Find the node of a key. */
    method Find(key: Bytes) returns (hash: nat, prev: Elem?, list: Elem?, ghost j: nat)
      requires Linked()
      ensures hash == Bucket(key, size) && hash < |chains| && Spread(elems, chains, repr)
      ensures list == null <==> key !in nodes
      ensures list != null ==> list == nodes[key] && list in repr && list.key == key
      ensures list != null ==> j < |chains[hash]| && chains[hash][j] == list
      ensures list != null ==> prev == (if j == 0 then null else chains[hash][j - 1])
    {
      var h := StringHash.StringHash(key);
      hash := h % size;
      assert IsList(elems[hash], chains[hash]);
      prev, list, j := FindIn(elems[hash], chains[hash], key);
      KeyInChain(key);
    }

    method Overwrite(list: Elem, value: Bytes)
      requires Linked() && list in repr
      modifies list`value
      ensures Linked() && list.key in old(Model()) && Model() == old(Model())[list.key := value]
    {
      list.value := value;
    }

    method GetValue(key: Bytes) returns (r: Option<Bytes>)
      requires Valid()
      ensures r == if key in Model() then Some(Model()[key]) else None
    {
      var hash, prev, list, j := Find(key);
      r := if list != null then Some(list.value) else None;
    }

    /** Push a fresh node in front of its chain. */
    static method PushFront(elems: array<Elem?>, ghost chains: seq<seq<Elem>>, ghost repr: set<Elem>,
                            hash: nat, key: Bytes, value: Bytes)
      returns (e: Elem, ghost newChains: seq<seq<Elem>>)
      requires Spread(elems, chains, repr) && |chains| > 0 && hash == Bucket(key, |chains|)
      modifies elems
      ensures fresh(e) && e.key == key && e.value == value && Spread(elems, newChains, repr + {e})
    {
      ghost var head, chain := elems[hash], chains[hash];
      assert IsList(head, chain);
      e := new Elem(key, value, elems[hash]);
      newChains := chains[hash := [e] + chains[hash]];
      PlacedAdd(chains, repr, e);
      elems[hash] := e;
      hide Placed, Bucket;
      assert IsList(head, chain);
      ListCons(e, chain);
      forall b | 0 <= b < |chains| && b != hash
        ensures IsList(elems[b], newChains[b])
      {
        assert old(IsList(elems[b], chains[b]));
      }
    }

    method Insert(hash: nat, key: Bytes, value: Bytes)
      requires Linked() && hash == Bucket(key, size) && key !in nodes
      modifies this, elems
      ensures Linked() && Model() == old(Model())[key := value]
      ensures elems == old(elems) && size == old(size) && nElems == old(nElems) + 1 && fresh(repr - old(repr))
    {
      hide *;
      LinkedParts();
      var e;
      e, chains := PushFront(elems, chains, repr, hash, key, value);
      IndexedAdd(nodes, repr, e);
      nodes, repr, nElems := nodes[key := e], repr + {e}, nElems + 1;
      LinkedParts();
    }

    /** Set a key to a value; the table grows first when it is more than three quarters full. */
    method SetValue(key: Bytes, value: Bytes)
      requires Valid()
      modifies this, elems, repr
      ensures Valid() && Model() == old(Model())[key := value]
      ensures fresh(repr - old(repr)) && (elems == old(elems) || fresh(elems))
      ensures size == (if 4 * old(nElems) > 3 * old(size) then 2 * old(size) else old(size))
    {
      hide Linked, Spread, Indexed, Placed, Bucket, Values, Model;
      LinkedParts();
      if 4 * nElems > 3 * size {
        Resize();
      }
      var hash, prev, list, j := Find(key);
      if list != null {
        Overwrite(list, value);
      } else {
        Insert(hash, key, value);
      }
    }
  
    /** Take the node at position `j` of its chain out of the list. */
    static method Unlink(elems: array<Elem?>, ghost chains: seq<seq<Elem>>, ghost repr: set<Elem>,
                         hash: nat, prev: Elem?, list: Elem, ghost j: nat)
      returns (ghost newChains: seq<seq<Elem>>)
      requires Spread(elems, chains, repr) && hash < |chains| && j < |chains[hash]| && list == chains[hash][j]
      requires prev == if j == 0 then null else chains[hash][j - 1]
      modifies elems, repr`next
      ensures Spread(elems, newChains, repr - {list})
    {
      ghost var chain := chains[hash];
      assert IsList(elems[hash], chain);
      assert list in chain;
      newChains := chains[hash := Without(chain, j)];
      PlacedRemove(chains, repr, hash, j);
      hide Placed, Bucket;
      if prev == null {
        elems[hash] := list.next;
      } else {
        prev.next := list.next;
      }
    }

    method Remove(hash: nat, prev: Elem?, list: Elem, ghost j: nat)
      requires Linked() && hash < |chains| && j < |chains[hash]| && list == chains[hash][j]
      requires prev == if j == 0 then null else chains[hash][j - 1]
      requires list.key in nodes && list == nodes[list.key]
      modifies this, elems, repr`next
      ensures Linked() && Model() == old(Model()) - {list.key}
      ensures elems == old(elems) && size == old(size) && nElems == old(nElems) - 1 && repr == old(repr) - {list}
    {
      hide *;
      LinkedParts();
      chains := Unlink(elems, chains, repr, hash, prev, list, j);
      IndexedRemove(nodes, repr, list.key);
      nodes, repr, nElems := nodes - {list.key}, repr - {list}, nElems - 1;
      LinkedParts();
    }

    /** Remove a key; the result tells whether it was there. */
    method DeleteKey(key: Bytes) returns (found: bool)
      requires Valid()
      modifies this, elems, repr`next
      ensures Valid() && found == (key in old(Model())) && Model() == old(Model()) - {key}
      ensures elems == old(elems) && size == old(size) && repr <= old(repr)
    {
      hide Linked, Spread, Indexed, Placed, Bucket, Values;
      ValuesKeys(nodes, key);
      var hash, prev, list, j := Find(key);
      found := list != null;
      if found {
        Remove(hash, prev, list, j);
      }
    }
  }
}
