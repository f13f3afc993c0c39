/** The endpoint index: an unbalanced binary search tree keyed by digest
    text and ordered by Python's string `<`. */
module SearchTree {
  import opened Wrappers
  import opened LexOrder

  /** `Node` with its `left` / `right` children; `None` is `Leaf`. */
  datatype Tree<V> = Leaf | Node(left: Tree<V>, key: string, value: V, right: Tree<V>)

  /** The key/value pairs the tree stores. */
  function Entries<V>(t: Tree<V>): map<string, V>
  {
    match t
    case Leaf => map[]
    case Node(l, k, v, r) => (Entries(l) + Entries(r))[k := v]
  }

  function Keys<V>(t: Tree<V>): set<string>
  {
    Entries(t).Keys
  }

  /** Every key in a left subtree sorts before its node's key, every key in
      a right subtree after it. */
  ghost predicate IsBst<V>(t: Tree<V>)
  {
    match t
    case Leaf => true
    case Node(l, k, _, r) =>
      && IsBst(l) && IsBst(r)
      && (forall x :: x in Keys(l) ==> Less(x, k))
      && (forall x :: x in Keys(r) ==> Less(k, x))
  }

  /** The keys met by an in-order walk, as `print_tree` visits them. */
  function InOrder<V>(t: Tree<V>): seq<string>
  {
    match t
    case Leaf => []
    case Node(l, k, _, r) => InOrder(l) + [k] + InOrder(r)
  }

  predicate StrictlyAscending(s: seq<string>)
  {
    forall i, j :: 0 <= i < j < |s| ==> Less(s[i], s[j])
  }

  function Size<V>(t: Tree<V>): nat
  {
    match t
    case Leaf => 0
    case Node(l, _, _, r) => Size(l) + 1 + Size(r)
  }

  /** Nodes compared without their values: inserting under an existing key
      leaves exactly this unchanged. */
  predicate SameShape<V>(a: Tree<V>, b: Tree<V>)
  {
    match (a, b)
    case (Leaf, Leaf) => true
    case (Node(l1, k1, _, r1), Node(l2, k2, _, r2)) => k1 == k2 && SameShape(l1, l2) && SameShape(r1, r2)
    case _ => false
  }

  /** `insert_node(root, key, value)`: descend left on a smaller key, right
      on a larger one, and overwrite the value on an equal one. */
  function Insert<V>(t: Tree<V>, k: string, v: V): (r: Tree<V>)
    ensures Keys(r) == Keys(t) + {k}
    ensures IsBst(t) ==> IsBst(r)
  {
    match t
    case Leaf => Node(Leaf, k, v, Leaf)
    case Node(l, key, val, r) =>
      if Less(k, key) then Node(Insert(l, k, v), key, val, r)
      else if Less(key, k) then Node(l, key, val, Insert(r, k, v))
      else
        LessTrichotomy(k, key);
        Node(l, key, v, r)
  }

  /** The search loop of `crack_password`, as a recursive descent: stop on
      an equal key, go right when the node's key is smaller, left otherwise. */
  function Find<V>(t: Tree<V>, k: string): (r: Option<V>)
    ensures r.Some? ==> k in Keys(t)
  {
    match t
    case Leaf => None
    case Node(l, key, val, r) =>
      if key == k then Some(val)
      else if Less(key, k) then Find(r, k)
      else Find(l, k)
  }

  /** `crack_password(rainbow_table, hash_val_to_find, chain_length)`: a
      single exact-match probe of the index for the target digest;
      `chain_length` is accepted and ignored. */
  method CrackPassword<V>(table: Tree<V>, target: string, chainLength: int) returns (r: Option<V>)
    ensures r == Find(table, target)
    ensures IsBst(table) ==> r == Lookup(Entries(table), target)
    ensures IsBst(table) ==> (r.None? <==> target !in Keys(table))
  {
    var current := table;
    r := None;
    while current.Node?
      invariant Find(current, target) == Find(table, target)
      invariant r == None
      decreases current
    {
      if current.key == target {
        r := Some(current.value);
        break;
      } else if Less(current.key, target) {
        current := current.right;
      } else {
        current := current.left;
      }
    }
    if IsBst(table) {
      FindCorrect(table, target);
    }
  }

  /** On a search tree the descent finds exactly the stored entry. */
  lemma {:induction false} FindCorrect<V>(t: Tree<V>, k: string)
    requires IsBst(t)
    ensures Find(t, k) == Lookup(Entries(t), k)
  {
    match t
    case Leaf =>
    case Node(l, key, val, r) =>
      if key != k {
        if Less(key, k) {
          FindCorrect(r, k);
          if k in Keys(l) {
            LessAsymmetric(k, key);
          }
        } else {
          FindCorrect(l, k);
          LessTrichotomy(key, k);
          if k in Keys(r) {
            LessAsymmetric(key, k);
          }
        }
      }
  }

  /** Inserting updates the stored map at exactly one key: last write wins. */
  lemma {:induction false} InsertEntries<V>(t: Tree<V>, k: string, v: V)
    requires IsBst(t)
    ensures Entries(Insert(t, k, v)) == Entries(t)[k := v]
  {
    match t
    case Leaf =>
    case Node(l, key, val, r) =>
      LessIrreflexive(k);
      if Less(k, key) {
        InsertEntries(l, k, v);
        if k in Keys(r) {
          LessAsymmetric(key, k);
        }
        UpdateBelow(Entries(l), Entries(r), key, val, k, v);
      } else if Less(key, k) {
        InsertEntries(r, k, v);
        UpdateBelow(Entries(l), Entries(r), key, val, k, v);
      } else {
        LessTrichotomy(key, k);
      }
  }

  /** Map algebra for an update made inside one subtree of a node. */
  lemma UpdateBelow<V>(a: map<string, V>, b: map<string, V>, key: string, val: V, k: string, v: V)
    requires k != key
    ensures (a + b[k := v])[key := val] == ((a + b)[key := val])[k := v]
    ensures k !in b ==> (a[k := v] + b)[key := val] == ((a + b)[key := val])[k := v]
  {
  }

  lemma {:induction false} SameShapeReflexive<V>(t: Tree<V>)
    ensures SameShape(t, t)
  {
    if t.Node? {
      SameShapeReflexive(t.left);
      SameShapeReflexive(t.right);
    }
  }

  /** Inserting under a key already present changes no key and no link:
      only that node's value is replaced. */
  lemma {:induction false} InsertExistingShape<V>(t: Tree<V>, k: string, v: V)
    requires IsBst(t) && k in Keys(t)
    ensures SameShape(Insert(t, k, v), t)
  {
    match t
    case Node(l, key, val, r) =>
      LessIrreflexive(k);
      SameShapeReflexive(l);
      SameShapeReflexive(r);
      if Less(k, key) {
        if k in Keys(r) {
          LessAsymmetric(key, k);
        }
        InsertExistingShape(l, k, v);
      } else if Less(key, k) {
        if k in Keys(l) {
          LessAsymmetric(k, key);
        }
        InsertExistingShape(r, k, v);
      }
  }

  /** Inserting a fresh key adds exactly one node. */
  lemma {:induction false} InsertNewSize<V>(t: Tree<V>, k: string, v: V)
    requires k !in Keys(t)
    ensures Size(Insert(t, k, v)) == Size(t) + 1
  {
    match t
    case Leaf =>
    case Node(l, key, val, r) =>
      LessTrichotomy(k, key);
      if Less(k, key) {
        InsertNewSize(l, k, v);
      } else {
        InsertNewSize(r, k, v);
      }
  }

  /** After an insert, the inserted key finds the new value and every other
      key finds what it found before. */
  lemma InsertFind<V>(t: Tree<V>, k: string, v: V, other: string)
    requires IsBst(t)
    ensures Find(Insert(t, k, v), k) == Some(v)
    ensures other != k ==> Find(Insert(t, k, v), other) == Find(t, other)
  {
    InsertEntries(t, k, v);
    FindCorrect(t, other);
    FindCorrect(Insert(t, k, v), k);
    FindCorrect(Insert(t, k, v), other);
  }

  lemma {:induction false} InOrderKeys<V>(t: Tree<V>)
    ensures forall i :: 0 <= i < |InOrder(t)| ==> InOrder(t)[i] in Keys(t)
    ensures forall x :: x in Keys(t) ==> x in InOrder(t)
  {
    match t
    case Leaf =>
    case Node(l, k, _, r) =>
      InOrderKeys(l);
      InOrderKeys(r);
  }

  /** A search tree's in-order walk meets its keys in strictly ascending
      order. */
  lemma {:induction false} BstAscending<V>(t: Tree<V>)
    requires IsBst(t)
    ensures StrictlyAscending(InOrder(t))
  {
    match t
    case Leaf =>
    case Node(l, k, _, r) =>
      BstAscending(l);
      BstAscending(r);
      InOrderKeys(l);
      InOrderKeys(r);
      var sl, sr := InOrder(l), InOrder(r);
      var s := InOrder(t);
      assert s == sl + [k] + sr;
      forall i, j | 0 <= i < j < |s|
        ensures Less(s[i], s[j])
      {
        if j < |sl| {
          assert s[i] == sl[i] && s[j] == sl[j];
        } else if i < |sl| && j == |sl| {
          assert s[i] == sl[i] && s[i] in Keys(l);
        } else if i < |sl| {
          assert s[i] == sl[i] && s[i] in Keys(l);
          assert s[j] == sr[j - |sl| - 1] && s[j] in Keys(r);
          LessTransitive(s[i], k, s[j]);
        } else if i == |sl| {
          assert s[j] == sr[j - |sl| - 1] && s[j] in Keys(r);
        } else {
          assert s[i] == sr[i - |sl| - 1] && s[j] == sr[j - |sl| - 1];
        }
      }
  }

  /** Conversely, a tree whose in-order walk is strictly ascending is a
      search tree. */
  lemma {:induction false} AscendingBst<V>(t: Tree<V>)
    requires StrictlyAscending(InOrder(t))
    ensures IsBst(t)
  {
    match t
    case Leaf =>
    case Node(l, k, _, r) =>
      InOrderKeys(l);
      InOrderKeys(r);
      var sl, sr := InOrder(l), InOrder(r);
      var s := InOrder(t);
      assert s == sl + [k] + sr;
      assert StrictlyAscending(sl) by {
        forall i, j | 0 <= i < j < |sl| ensures Less(sl[i], sl[j]) {
          assert s[i] == sl[i] && s[j] == sl[j];
        }
      }
      assert StrictlyAscending(sr) by {
        forall i, j | 0 <= i < j < |sr| ensures Less(sr[i], sr[j]) {
          assert s[|sl| + 1 + i] == sr[i] && s[|sl| + 1 + j] == sr[j];
        }
      }
      AscendingBst(l);
      AscendingBst(r);
      forall x | x in Keys(l) ensures Less(x, k) {
        var i :| 0 <= i < |sl| && sl[i] == x;
        assert s[i] == x && s[|sl|] == k;
      }
      forall x | x in Keys(r) ensures Less(k, x) {
        var i :| 0 <= i < |sr| && sr[i] == x;
        assert s[|sl| + 1 + i] == x && s[|sl|] == k;
      }
  }

  /** The search-tree invariant holds exactly when an in-order walk meets
      the keys in strictly ascending order. */
  lemma BstIffAscending<V>(t: Tree<V>)
    ensures IsBst(t) <==> StrictlyAscending(InOrder(t))
  {
    if IsBst(t) {
      BstAscending(t);
    }
    if StrictlyAscending(InOrder(t)) {
      AscendingBst(t);
    }
  }
}
