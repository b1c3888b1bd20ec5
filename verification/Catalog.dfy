/**
 The catalog of a volume: a record for every file and folder under (parent id, name), and a
 thread record under (id, empty name) that says where the record is. The tree is an ordered map
 that refuses to add a key twice; paths are already resolved to ids. A name stands for the
 string the tree compares (see `UnicodeCompare`).
 */
module Catalog {
  import opened Options

  type Name = seq<nat>
  datatype Key = Key(parent: nat, name: Name)

  datatype Record =
    | Folder(id: nat, valence: int, folderCount: int, info: nat)
    | File(id: nat, info: nat)
    | Thread(parent: nat, name: Name, ofFolder: bool)

  type Tree = map<Key, Record>

  const ROOT_PARENT: nat := 1
  const ROOT: nat := 2

  function ThreadKey(id: nat): Key
  {
    Key(id, [])
  }

  /** The key a thread record names. */
  function Target(t: Record): Key
    requires t.Thread?
  {
    Key(t.parent, t.name)
  }

  // The operations of the tree.

  function Add(tree: Tree, k: Key, r: Record): Tree
  {
    if k in tree then tree else tree[k := r]
  }

  function Remove(tree: Tree, k: Key): Tree
  {
    tree - {k}
  }

  // The invariant.

  predicate Holds(tree: Tree, k: Key)
  {
    k in tree && !tree[k].Thread?
  }

  predicate IsThread(tree: Tree, k: Key)
  {
    k in tree && tree[k].Thread?
  }

  /** Every record has a thread that names its key. */
  ghost predicate Threaded(tree: Tree)
  {
    forall k {:trigger Holds(tree, k)} :: Holds(tree, k) ==>
      && k.name != [] && ThreadKey(tree[k].id) in tree
      && tree[ThreadKey(tree[k].id)] == Thread(k.parent, k.name, tree[k].Folder?)
  }

  /** Every thread stands under an empty name and names a record with the thread's id. */
  ghost predicate Named(tree: Tree)
  {
    forall k {:trigger IsThread(tree, k)} :: IsThread(tree, k) ==>
      && k.name == [] && Holds(tree, Target(tree[k])) && tree[Target(tree[k])].id == k.parent
  }

  /** Every record lies in a folder; only the root lies outside. */
  ghost predicate Placed(tree: Tree)
  {
    forall k {:trigger Holds(tree, k)} :: Holds(tree, k) ==>
      if k.parent == ROOT_PARENT then tree[k].id == ROOT
        else ThreadKey(k.parent) in tree && tree[ThreadKey(k.parent)].Thread? && tree[ThreadKey(k.parent)].ofFolder
  }

  ghost predicate Numbered(tree: Tree, nextId: nat)
  {
    && nextId > ROOT
    && forall k :: k in tree ==>
         k.parent < nextId && k.parent > 0 && (Holds(tree, k) ==> ROOT_PARENT < tree[k].id < nextId)
  }

  /** The keys of the files and folders in a folder. */
  ghost function Children(tree: Tree, id: nat): set<Key>
  {
    set k | k in tree && k.parent == id && k.name != []
  }

  /** Every folder's valence is the number of its children. */
  ghost predicate Counted(tree: Tree)
  {
    forall k {:trigger Holds(tree, k)} :: Holds(tree, k) && tree[k].Folder? ==>
      tree[k].valence == |Children(tree, tree[k].id)|
  }

  /** The invariant without the valences. */
  ghost predicate Shape(tree: Tree, nextId: nat)
  {
    Threaded(tree) && Named(tree) && Placed(tree) && Numbered(tree, nextId)
  }

  ghost predicate Inv(tree: Tree, nextId: nat)
  {
    Shape(tree, nextId) && Counted(tree)
  }

  // Lookup by id.

  function ById(tree: Tree, id: nat): Option<Record>
  {
    var t := ThreadKey(id);
    if t !in tree || !tree[t].Thread? then None else
    if Target(tree[t]) in tree then Some(tree[Target(tree[t])]) else None
  }

  /** The lookup agrees with a scan of all records: it finds the one record with the id, if there is one. */
  lemma ByIdIsScan(tree: Tree, nextId: nat, id: nat)
    requires Inv(tree, nextId)
    ensures ById(tree, id).None? <==> forall k :: Holds(tree, k) ==> tree[k].id != id
    ensures forall k :: Holds(tree, k) && tree[k].id == id ==>
      ById(tree, id) == Some(tree[k]) && Target(tree[ThreadKey(id)]) == k
  {
    if ThreadKey(id) in tree && tree[ThreadKey(id)].Thread? {
      TargetHolds(tree, nextId, id);
    }
  }

  /** Every lookup by id agrees with a scan. */
  ghost predicate LookupsAgree(tree: Tree)
  {
    forall id {:trigger ById(tree, id)} ::
      && (ById(tree, id).None? <==> forall k :: Holds(tree, k) ==> tree[k].id != id)
      && (forall k :: Holds(tree, k) && tree[k].id == id ==> ById(tree, id) == Some(tree[k]))
  }

  lemma LookupsAreScans(tree: Tree, nextId: nat)
    requires Inv(tree, nextId)
    ensures LookupsAgree(tree)
  {
    forall id: nat
      ensures ById(tree, id).None? <==> forall k :: Holds(tree, k) ==> tree[k].id != id
      ensures forall k :: Holds(tree, k) && tree[k].id == id ==> ById(tree, id) == Some(tree[k])
    {
      ByIdIsScan(tree, nextId, id);
    }
  }

  /** The record with r's id is replaced by r, under the key its thread names. */
  function Update(tree: Tree, r: Record): Tree
    requires !r.Thread? && ThreadKey(r.id) in tree && tree[ThreadKey(r.id)].Thread?
  {
    var k := Target(tree[ThreadKey(r.id)]);
    Add(Remove(tree, k), k, r)
  }

  lemma UpdateIs(tree: Tree, r: Record)
    requires !r.Thread? && ThreadKey(r.id) in tree && tree[ThreadKey(r.id)].Thread?
    ensures Update(tree, r) == tree[Target(tree[ThreadKey(r.id)]) := r]
  {
  }

  /** Replacing a record by one with its id and kind. */
  lemma ReplaceShape(tree: Tree, nextId: nat, k: Key, r: Record)
    requires Shape(tree, nextId) && Holds(tree, k) && !r.Thread? && r.id == tree[k].id && r.Folder? == tree[k].Folder?
    ensures Shape(tree[k := r], nextId)
  {
    var after := tree[k := r];
    assert k != ThreadKey(r.id);
    assert Threaded(after) by {
      forall j | Holds(after, j)
        ensures j.name != [] && ThreadKey(after[j].id) in after
        ensures after[ThreadKey(after[j].id)] == Thread(j.parent, j.name, after[j].Folder?)
      {
        assert Holds(tree, j) && tree[j].id == after[j].id;
        assert tree[ThreadKey(tree[j].id)].Thread?;
      }
    }
    assert Named(after) by {
      forall j | j in after && after[j].Thread?
        ensures j.name == [] && Holds(after, Target(after[j])) && after[Target(after[j])].id == j.parent
      {
        assert IsThread(tree, j);
      }
    }
    assert Placed(after) by {
      forall j | Holds(after, j)
        ensures if j.parent == ROOT_PARENT then after[j].id == ROOT
          else ThreadKey(j.parent) in after && after[ThreadKey(j.parent)].Thread? && after[ThreadKey(j.parent)].ofFolder
      {
        assert Holds(tree, j);
      }
    }
    assert Numbered(after, nextId) by {
      forall j | j in after
        ensures j.parent < nextId && j.parent > 0 && (Holds(after, j) ==> ROOT_PARENT < after[j].id < nextId)
      {
        assert Holds(after, j) ==> Holds(tree, j);
      }
    }
  }

  /** Valences that still need da added for folder a and db for folder b, and are right otherwise. */
  ghost predicate Off(tree: Tree, a: nat, da: int, b: nat, db: int)
  {
    forall k {:trigger Holds(tree, k)} :: Holds(tree, k) && tree[k].Folder? ==>
      tree[k].valence == |Children(tree, tree[k].id)| - Missing(tree[k].id, a, da, b, db)
  }

  function Missing(id: nat, a: nat, da: int, b: nat, db: int): int
  {
    (if id == a then da else 0) + (if id == b then db else 0)
  }

  /** Trees with the same keys have the same children. */
  lemma SameChildren(a: Tree, b: Tree, id: nat)
    requires a.Keys == b.Keys
    ensures Children(a, id) == Children(b, id)
  {
  }

  /** Writing back a folder's record with its valence changed repairs a valence that is off by as much. */
  lemma Repair(tree: Tree, nextId: nat, r: Record, a: nat, da: int, b: nat, db: int)
    requires Shape(tree, nextId) && Off(tree, a, da, b, db) && r.Folder? && r.id == a && (a == b ==> db == 0)
    requires ThreadKey(a) in tree && tree[ThreadKey(a)].Thread? && Target(tree[ThreadKey(a)]) in tree
    requires tree[Target(tree[ThreadKey(a)])].Folder? && r.valence == tree[Target(tree[ThreadKey(a)])].valence + da
    ensures Shape(Update(tree, r), nextId) && Off(Update(tree, r), a, 0, b, db)
  {
    hide Shape, Children;
    UpdateIs(tree, r);
    var k, after := Target(tree[ThreadKey(a)]), Update(tree, r);
    TargetHolds(tree, nextId, a);
    ReplaceShape(tree, nextId, k, r);
    forall j | Holds(after, j) && after[j].Folder?
      ensures after[j].valence == |Children(after, after[j].id)| - Missing(after[j].id, a, 0, b, db)
    {
      SameChildren(tree, after, after[j].id);
      assert Holds(tree, j);
      if j != k && tree[j].id == a {
        Unique(tree, nextId, j, k);
      }
    }
  }

  lemma NothingOff(tree: Tree, a: nat, b: nat)
    requires Off(tree, a, 0, b, 0)
    ensures Counted(tree)
  {
  }

  lemma TargetHolds(tree: Tree, nextId: nat, id: nat)
    requires Shape(tree, nextId) && ThreadKey(id) in tree && tree[ThreadKey(id)].Thread?
    ensures var k := Target(tree[ThreadKey(id)]);
      Holds(tree, k) && tree[k].id == id && k.name != [] && tree[k].Folder? == tree[ThreadKey(id)].ofFolder
  {
    assert IsThread(tree, ThreadKey(id));
  }

  /** No id is held twice. */
  lemma Unique(tree: Tree, nextId: nat, j: Key, k: Key)
    requires Shape(tree, nextId) && Holds(tree, j) && Holds(tree, k) && tree[j].id == tree[k].id
    ensures j == k
  {
    assert tree[ThreadKey(tree[j].id)] == Thread(j.parent, j.name, tree[j].Folder?);
    assert tree[ThreadKey(tree[k].id)] == Thread(k.parent, k.name, tree[k].Folder?);
  }

  // Adding and removing a record with its thread.

  /** A new record and its thread. */
  function Entered(tree: Tree, k: Key, r: Record): Tree
    requires !r.Thread?
  {
    Add(Add(tree, k, r), ThreadKey(r.id), Thread(k.parent, k.name, r.Folder?))
  }

  /** The tree without a record and its thread. */
  function Left(tree: Tree, k: Key): Tree
    requires Holds(tree, k)
  {
    Remove(Remove(tree, k), ThreadKey(tree[k].id))
  }

  lemma EnterShape(tree: Tree, nextId: nat, k: Key, r: Record, next: nat)
    requires Shape(tree, nextId) && k !in tree && k.name != [] && !r.Thread?
    requires ThreadKey(r.id) !in tree && nextId <= next && ROOT < r.id < next
    requires ThreadKey(k.parent) in tree && tree[ThreadKey(k.parent)].Thread? && tree[ThreadKey(k.parent)].ofFolder
      && k.parent != ROOT_PARENT
    ensures Entered(tree, k, r) == tree[k := r][ThreadKey(r.id) := Thread(k.parent, k.name, r.Folder?)]
    ensures Shape(Entered(tree, k, r), next)
  {
    var t := ThreadKey(r.id);
    var after := tree[k := r][t := Thread(k.parent, k.name, r.Folder?)];
    assert Entered(tree, k, r) == after;
    assert Threaded(after) by {
      forall j | Holds(after, j)
        ensures j.name != [] && ThreadKey(after[j].id) in after
        ensures after[ThreadKey(after[j].id)] == Thread(j.parent, j.name, after[j].Folder?)
      {
        if j != k {
          assert Holds(tree, j) && ThreadKey(tree[j].id) in tree && tree[ThreadKey(tree[j].id)].Thread?;
        }
      }
    }
    assert Named(after) by {
      forall j | j in after && after[j].Thread?
        ensures j.name == [] && Holds(after, Target(after[j])) && after[Target(after[j])].id == j.parent
      {
        if j != t {
          assert IsThread(tree, j);
          assert Target(tree[j]) != k && Target(tree[j]) != t;
        }
      }
    }
    assert Placed(after) by {
      forall j | Holds(after, j)
        ensures if j.parent == ROOT_PARENT then after[j].id == ROOT
          else ThreadKey(j.parent) in after && after[ThreadKey(j.parent)].Thread? && after[ThreadKey(j.parent)].ofFolder
      {
        if j != k {
          assert Holds(tree, j);
        }
      }
    }
    assert Numbered(after, next) by {
      forall j | j in after
        ensures j.parent < next && j.parent > 0 && (Holds(after, j) ==> ROOT_PARENT < after[j].id < next)
      {
        if j != k && j != t {
          assert Holds(after, j) ==> Holds(tree, j);
        }
      }
    }
  }

  lemma LeftThread(tree: Tree, nextId: nat, k: Key)
    requires Shape(tree, nextId) && Holds(tree, k)
    ensures var t := ThreadKey(tree[k].id); t in tree && tree[t] == Thread(k.parent, k.name, tree[k].Folder?)
  {
  }

  lemma LeaveThreaded(tree: Tree, nextId: nat, k: Key)
    requires Shape(tree, nextId) && Holds(tree, k) && Children(tree, tree[k].id) == {}
    ensures Threaded(Left(tree, k))
  {
    LeftThread(tree, nextId, k);
    hide Named, Placed, Numbered;
    var id, t, after := tree[k].id, ThreadKey(tree[k].id), Left(tree, k);
    forall j | Holds(after, j)
      ensures j.name != [] && ThreadKey(after[j].id) in after
      ensures after[ThreadKey(after[j].id)] == Thread(j.parent, j.name, after[j].Folder?)
    {
      assert Holds(tree, j) && tree[ThreadKey(tree[j].id)].Thread?;
      if tree[j].id == id {
        Unique(tree, nextId, j, k);
      }
    }
  }

  lemma LeaveNamed(tree: Tree, nextId: nat, k: Key)
    requires Shape(tree, nextId) && Holds(tree, k) && Children(tree, tree[k].id) == {}
    ensures Named(Left(tree, k))
  {
    hide Shape;
    var t, after := ThreadKey(tree[k].id), Left(tree, k);
    forall j | j in after && after[j].Thread?
      ensures j.name == [] && Holds(after, Target(after[j])) && after[Target(after[j])].id == j.parent
    {
      OtherThread(tree, nextId, k, k, j);
    }
  }

  lemma LeavePlaced(tree: Tree, nextId: nat, k: Key)
    requires Shape(tree, nextId) && Holds(tree, k) && Children(tree, tree[k].id) == {}
    ensures Placed(Left(tree, k))
  {
    hide Shape, Children;
    var after := Left(tree, k);
    forall j | Holds(after, j)
      ensures if j.parent == ROOT_PARENT then after[j].id == ROOT
        else ThreadKey(j.parent) in after && after[ThreadKey(j.parent)].Thread? && after[ThreadKey(j.parent)].ofFolder
    {
      assert Holds(tree, j);
      PlacedAt(tree, nextId, j);
      NotChild(tree, nextId, k, j);
    }
  }

  /** The parent of a record that stays is not the childless record that leaves. */
  lemma NotChild(tree: Tree, nextId: nat, k: Key, j: Key)
    requires Shape(tree, nextId) && Holds(tree, k) && Children(tree, tree[k].id) == {} && Holds(tree, j)
    ensures j.parent != tree[k].id && ThreadKey(j.parent) != k
  {
    NamedRecord(tree, nextId, j);
    NamedRecord(tree, nextId, k);
    var id := tree[k].id;
    assert j in Children(tree, id) <==> j.parent == id;
  }

  lemma LeaveNumbered(tree: Tree, nextId: nat, k: Key)
    requires Shape(tree, nextId) && Holds(tree, k) && Children(tree, tree[k].id) == {}
    ensures Numbered(Left(tree, k), nextId)
  {
    LeftThread(tree, nextId, k);
    hide Threaded, Named, Placed;
    var id, t, after := tree[k].id, ThreadKey(tree[k].id), Left(tree, k);
    forall j | j in after
      ensures j.parent < nextId && j.parent > 0 && (Holds(after, j) ==> ROOT_PARENT < after[j].id < nextId)
    {
      assert Holds(after, j) ==> Holds(tree, j);
    }
  }

  lemma LeaveShape(tree: Tree, nextId: nat, k: Key)
    requires Shape(tree, nextId) && Holds(tree, k) && Children(tree, tree[k].id) == {}
    ensures Shape(Left(tree, k), nextId)
  {
    LeaveThreaded(tree, nextId, k);
    LeaveNamed(tree, nextId, k);
    LeavePlaced(tree, nextId, k);
    LeaveNumbered(tree, nextId, k);
  }

  /** A record taken out and entered again elsewhere, its thread with it. */
  function Moved(tree: Tree, k: Key, to: Key): Tree
    requires Holds(tree, k)
  {
    Entered(Left(tree, k), to, tree[k])
  }

  /** The moved tree key by key. */
  lemma MovedAt(tree: Tree, nextId: nat, k: Key, to: Key, j: Key)
    requires Shape(tree, nextId) && Holds(tree, k) && (to !in tree || to == k) && to.name != []
    ensures var t, after := ThreadKey(tree[k].id), Moved(tree, k, to);
      if j == t then j in after && after[j] == Thread(to.parent, to.name, tree[k].Folder?)
      else if j == to then j in after && after[j] == tree[k]
      else (j in after <==> j in tree && j != k) && (j in after ==> after[j] == tree[j])
  {
  }

  lemma OtherRecord(tree: Tree, nextId: nat, k: Key, j: Key)
    requires Shape(tree, nextId) && Holds(tree, k) && Holds(tree, j) && j != k
    ensures var u := ThreadKey(tree[j].id);
      && u != ThreadKey(tree[k].id) && j.name != [] && u in tree && tree[u] == Thread(j.parent, j.name, tree[j].Folder?)
      && u != k
  {
    if tree[j].id == tree[k].id {
      Unique(tree, nextId, j, k);
    }
  }

  lemma MoveThreaded(tree: Tree, nextId: nat, k: Key, to: Key)
    requires Shape(tree, nextId) && Holds(tree, k) && (to !in tree || to == k) && to.name != []
    ensures Threaded(Moved(tree, k, to))
  {
    hide Moved, Shape;
    var t, after := ThreadKey(tree[k].id), Moved(tree, k, to);
    MovedAt(tree, nextId, k, to, t);
    forall j | Holds(after, j)
      ensures j.name != [] && ThreadKey(after[j].id) in after
      ensures after[ThreadKey(after[j].id)] == Thread(j.parent, j.name, after[j].Folder?)
    {
      MovedAt(tree, nextId, k, to, j);
      if j != to {
        OtherRecord(tree, nextId, k, j);
        MovedAt(tree, nextId, k, to, ThreadKey(tree[j].id));
      }
    }
  }

  lemma OtherThread(tree: Tree, nextId: nat, k: Key, to: Key, j: Key)
    requires Shape(tree, nextId) && Holds(tree, k) && (to !in tree || to == k)
    requires j in tree && tree[j].Thread? && j != ThreadKey(tree[k].id)
    ensures var g := Target(tree[j]);
      j.name == [] && Holds(tree, g) && tree[g].id == j.parent && g != k && g != to && g != ThreadKey(tree[k].id)
  {
    var g := Target(tree[j]);
    assert IsThread(tree, j) && j == Key(j.parent, []);
    assert tree[ThreadKey(tree[k].id)].Thread?;
  }

  lemma MoveNamed(tree: Tree, nextId: nat, k: Key, to: Key)
    requires Shape(tree, nextId) && Holds(tree, k) && (to !in tree || to == k) && to.name != []
    ensures Named(Moved(tree, k, to))
  {
    hide Moved, Shape;
    var t, after := ThreadKey(tree[k].id), Moved(tree, k, to);
    MovedAt(tree, nextId, k, to, to);
    forall j | j in after && after[j].Thread?
      ensures j.name == [] && Holds(after, Target(after[j])) && after[Target(after[j])].id == j.parent
    {
      MovedAt(tree, nextId, k, to, j);
      if j != t {
        OtherThread(tree, nextId, k, to, j);
        MovedAt(tree, nextId, k, to, Target(tree[j]));
      }
    }
  }

  lemma MovePlaced(tree: Tree, nextId: nat, k: Key, to: Key)
    requires Shape(tree, nextId) && Holds(tree, k) && (to !in tree || to == k) && to.name != []
    requires ThreadKey(to.parent) in tree && tree[ThreadKey(to.parent)].Thread? && tree[ThreadKey(to.parent)].ofFolder
      && to.parent != ROOT_PARENT
    ensures Placed(Moved(tree, k, to))
  {
    hide Moved, Shape;
    var after := Moved(tree, k, to);
    forall j | Holds(after, j)
      ensures if j.parent == ROOT_PARENT then after[j].id == ROOT
        else ThreadKey(j.parent) in after && after[ThreadKey(j.parent)].Thread? && after[ThreadKey(j.parent)].ofFolder
    {
      MovedAt(tree, nextId, k, to, j);
      ThreadStays(tree, nextId, k, to, j.parent);
      if j != to {
        PlacedAt(tree, nextId, j);
      }
    }
  }

  lemma PlacedAt(tree: Tree, nextId: nat, j: Key)
    requires Shape(tree, nextId) && Holds(tree, j)
    ensures if j.parent == ROOT_PARENT then tree[j].id == ROOT
      else ThreadKey(j.parent) in tree && tree[ThreadKey(j.parent)].Thread? && tree[ThreadKey(j.parent)].ofFolder
  {
  }

  /** A folder's thread is still a folder's thread after a move. */
  lemma ThreadStays(tree: Tree, nextId: nat, k: Key, to: Key, id: nat)
    requires Shape(tree, nextId) && Holds(tree, k) && (to !in tree || to == k) && to.name != []
    ensures var u, after := ThreadKey(id), Moved(tree, k, to);
      u in tree && tree[u].Thread? && tree[u].ofFolder ==> u in after && after[u].Thread? && after[u].ofFolder
  {
    hide Moved, Named, Placed, Numbered;
    MovedAt(tree, nextId, k, to, ThreadKey(id));
    assert tree[ThreadKey(tree[k].id)] == Thread(k.parent, k.name, tree[k].Folder?);
  }

  lemma MoveNumbered(tree: Tree, nextId: nat, k: Key, to: Key)
    requires Shape(tree, nextId) && Holds(tree, k) && (to !in tree || to == k) && to.name != []
      && 0 < to.parent < nextId
    ensures Numbered(Moved(tree, k, to), nextId)
  {
    hide Moved, Threaded, Named, Placed;
    var after := Moved(tree, k, to);
    forall j | j in after
      ensures j.parent < nextId && j.parent > 0 && (Holds(after, j) ==> ROOT_PARENT < after[j].id < nextId)
    {
      MovedAt(tree, nextId, k, to, j);
      assert Holds(tree, k);
      assert Holds(after, j) && j != to ==> Holds(tree, j);
    }
  }

  lemma MoveShape(tree: Tree, nextId: nat, k: Key, to: Key)
    requires Shape(tree, nextId) && Holds(tree, k) && (to !in tree || to == k) && to.name != []
    requires ThreadKey(to.parent) in tree && tree[ThreadKey(to.parent)].Thread? && tree[ThreadKey(to.parent)].ofFolder
      && to.parent != ROOT_PARENT
    ensures Shape(Moved(tree, k, to), nextId)
  {
    assert 0 < ThreadKey(to.parent).parent < nextId;
    MoveThreaded(tree, nextId, k, to);
    MoveNamed(tree, nextId, k, to);
    MovePlaced(tree, nextId, k, to);
    MoveNumbered(tree, nextId, k, to);
  }

  // Children and valences.

  lemma EnterChildren(tree: Tree, k: Key, r: Record, id: nat)
    requires !r.Thread? && k !in tree && k.name != []
    ensures Children(Entered(tree, k, r), id) == Children(tree, id) + (if k.parent == id then {k} else {})
    ensures |Children(Entered(tree, k, r), id)| == |Children(tree, id)| + (if k.parent == id then 1 else 0)
  {
    assert k !in Children(tree, id);
  }

  lemma LeaveChildren(tree: Tree, k: Key, id: nat)
    requires Holds(tree, k) && k.name != []
    ensures Children(Left(tree, k), id) == Children(tree, id) - {k}
    ensures |Children(Left(tree, k), id)| == |Children(tree, id)| - (if k.parent == id then 1 else 0)
  {
    if k.parent == id {
      assert k in Children(tree, id);
    }
  }

  // The operations, on trees.

  /**
   What creating a file or folder leaves: the record, unless its name is taken, its thread, and the
   parent's counts.
   */
  function Created(tree: Tree, parent: Record, name: Name, r: Record): Tree
    requires parent.Folder? && !r.Thread? && ThreadKey(parent.id) in tree && tree[ThreadKey(parent.id)].Thread?
  {
    Update(Entered(tree, Key(parent.id, name), r),
           parent.(valence := parent.valence + 1, folderCount := parent.folderCount + (if r.Folder? then 1 else 0)))
  }

  lemma CreateKeeps(tree: Tree, nextId: nat, parent: nat, name: Name, r: Record)
    requires Inv(tree, nextId) && ById(tree, parent).Some? && ById(tree, parent).value.Folder?
    requires Key(parent, name) !in tree && !r.Thread? && r.id == nextId && (r.Folder? ==> r.valence == 0)
    ensures ThreadKey(parent) in tree && tree[ThreadKey(parent)].Thread? && ById(tree, parent).value.id == parent
    ensures Inv(Created(tree, ById(tree, parent).value, name, r), nextId + 1)
  {
    hide Shape, Children, Update;
    var p, k := ById(tree, parent).value, Key(parent, name);
    NewIds(tree, nextId, parent, k);
    TargetHolds(tree, nextId, parent);
    EnterShape(tree, nextId, k, r, nextId + 1);
    var after := Entered(tree, k, r);
    forall j | Holds(after, j) && after[j].Folder?
      ensures after[j].valence == |Children(after, after[j].id)| - Missing(after[j].id, parent, 1, parent, 0)
    {
      EnterChildren(tree, k, r, after[j].id);
      if j == k {
        NoChildren(tree, nextId, nextId);
      } else {
        assert Holds(tree, j);
      }
    }
    var q := p.(valence := p.valence + 1, folderCount := p.folderCount + (if r.Folder? then 1 else 0));
    Repair(after, nextId + 1, q, parent, 1, parent, 0);
    NothingOff(Created(tree, p, name, r), parent, parent);
  }

  lemma NewIds(tree: Tree, nextId: nat, parent: nat, k: Key)
    requires Shape(tree, nextId) && ThreadKey(parent) in tree && k.parent == parent && k !in tree
    ensures ThreadKey(nextId) !in tree && k.name != [] && nextId > ROOT
    ensures tree[ThreadKey(parent)].Thread? ==> parent != ROOT_PARENT && parent < nextId
  {
    if tree[ThreadKey(parent)].Thread? {
      TargetHolds(tree, nextId, parent);
    }
    assert k == Key(k.parent, k.name);
  }

  /** The thread is entered and the parent's counts go up even when the name is taken. */
  lemma CreatedTaken(tree: Tree, nextId: nat, parent: nat, name: Name, r: Record)
    requires Inv(tree, nextId) && ById(tree, parent).Some? && ById(tree, parent).value.Folder?
    requires Key(parent, name) in tree && !r.Thread? && r.id == nextId
    ensures ThreadKey(parent) in tree && tree[ThreadKey(parent)].Thread? && ById(tree, parent).value.id == parent
    ensures ThreadKey(nextId) !in tree && nextId > ROOT && parent < nextId
    ensures var p, at := ById(tree, parent).value, Target(tree[ThreadKey(parent)]);
      && at.name != [] && Holds(tree, at) && tree[at] == p
      && Created(tree, p, name, r) == tree[ThreadKey(nextId) := Thread(parent, name, r.Folder?)][
           at := p.(valence := p.valence + 1, folderCount := p.folderCount + (if r.Folder? then 1 else 0))]
  {
    hide Shape;
    var p, k, t := ById(tree, parent).value, Key(parent, name), ThreadKey(nextId);
    TargetHolds(tree, nextId, parent);
    FreshId(tree, nextId, parent);
    var entered := Entered(tree, k, r);
    assert entered == tree[t := Thread(parent, name, r.Folder?)];
    UpdateIs(entered, p.(valence := p.valence + 1, folderCount := p.folderCount + (if r.Folder? then 1 else 0)));
  }

  /** The tree after a creation, key by key: the record if its name is free, its thread, and the parent's counts. */
  lemma CreatedIs(tree: Tree, nextId: nat, parent: nat, name: Name, r: Record)
    requires Inv(tree, nextId) && ById(tree, parent).Some? && ById(tree, parent).value.Folder?
    requires !r.Thread? && r.id == nextId
    ensures ThreadKey(parent) in tree && tree[ThreadKey(parent)].Thread? && ById(tree, parent).value.id == parent
    ensures var p, at := ById(tree, parent).value, Target(tree[ThreadKey(parent)]);
      Created(tree, p, name, r)
      == (if Key(parent, name) in tree then tree else tree[Key(parent, name) := r])[
           Key(nextId, []) := Thread(parent, name, r.Folder?)][
           at := Folder(parent, p.valence + 1, if r.Folder? then p.folderCount + 1 else p.folderCount, p.info)]
  {
    hide Shape, Update;
    if Key(parent, name) in tree {
      CreatedTaken(tree, nextId, parent, name, r);
    } else {
      var p, k := ById(tree, parent).value, Key(parent, name);
      TargetHolds(tree, nextId, parent);
      NewIds(tree, nextId, parent, k);
      var entered := Entered(tree, k, r);
      assert entered == tree[k := r][ThreadKey(nextId) := Thread(parent, name, r.Folder?)];
      UpdateIs(entered, p.(valence := p.valence + 1, folderCount := p.folderCount + (if r.Folder? then 1 else 0)));
    }
  }

  lemma FreshId(tree: Tree, nextId: nat, parent: nat)
    requires Shape(tree, nextId) && ThreadKey(parent) in tree
    ensures ThreadKey(nextId) !in tree && nextId > ROOT && parent < nextId
  {
    assert ThreadKey(parent).parent < nextId;
  }

  /**
   Under a taken name the new thread names a key that does not hold the new id, and the parent's
   valence ends one above the number of its children.
   */
  lemma TakenNameBreaks(tree: Tree, nextId: nat, parent: nat, name: Name, r: Record)
    requires Inv(tree, nextId) && ById(tree, parent).Some? && ById(tree, parent).value.Folder?
    requires Key(parent, name) in tree && !r.Thread? && r.id == nextId
    ensures ThreadKey(parent) in tree && tree[ThreadKey(parent)].Thread? && ById(tree, parent).value.id == parent
    ensures var k, after := Key(parent, name), Created(tree, ById(tree, parent).value, name, r);
      && ThreadKey(nextId) in after && after[ThreadKey(nextId)].Thread? && Target(after[ThreadKey(nextId)]) == k
      && k in after && (after[k].Thread? || after[k].id != nextId) && !Named(after)
      && ById(after, parent).Some? && ById(after, parent).value.Folder?
      && ById(after, parent).value.valence == |Children(after, parent)| + 1
  {
    CreatedTaken(tree, nextId, parent, name, r);
    var k, t, after := Key(parent, name), ThreadKey(nextId), Created(tree, ById(tree, parent).value, name, r);
    OldId(tree, nextId, k);
    TakenChildren(tree, nextId, parent, name, r);
    FolderValence(tree, nextId, parent);
    hide Shape, Children, Update, Entered, Created;
    assert IsThread(after, t) && Target(after[t]) == k;
  }

  lemma OldId(tree: Tree, nextId: nat, k: Key)
    requires Shape(tree, nextId) && k in tree
    ensures !tree[k].Thread? ==> tree[k].id < nextId
  {
    assert !tree[k].Thread? ==> Holds(tree, k);
  }

  lemma TakenChildren(tree: Tree, nextId: nat, parent: nat, name: Name, r: Record)
    requires Inv(tree, nextId) && ById(tree, parent).Some? && ById(tree, parent).value.Folder?
    requires Key(parent, name) in tree && !r.Thread? && r.id == nextId
    requires ThreadKey(parent) in tree && tree[ThreadKey(parent)].Thread? && ById(tree, parent).value.id == parent
    ensures Children(Created(tree, ById(tree, parent).value, name, r), parent) == Children(tree, parent)
  {
    hide Shape;
    CreatedTaken(tree, nextId, parent, name, r);
  }

  /** Creating a file or folder keeps the invariant exactly when its name is free. */
  lemma CreateExactly(tree: Tree, nextId: nat, parent: nat, name: Name, r: Record)
    requires Inv(tree, nextId) && ById(tree, parent).Some? && ById(tree, parent).value.Folder?
    requires !r.Thread? && r.id == nextId && (r.Folder? ==> r.valence == 0)
    ensures ThreadKey(parent) in tree && tree[ThreadKey(parent)].Thread? && ById(tree, parent).value.id == parent
    ensures Inv(Created(tree, ById(tree, parent).value, name, r), nextId + 1) <==> Key(parent, name) !in tree
  {
    hide Created, Threaded, Placed, Numbered, Counted;
    if Key(parent, name) in tree {
      TakenNameBreaks(tree, nextId, parent, name, r);
    } else {
      CreateKeeps(tree, nextId, parent, name, r);
    }
  }

  lemma NoChildren(tree: Tree, nextId: nat, id: nat)
    requires Shape(tree, nextId) && id >= nextId
    ensures Children(tree, id) == {}
  {
  }

  /** What removing a file or an empty folder leaves. */
  function Deleted(tree: Tree, k: Key, parent: Record): Tree
    requires Holds(tree, k) && parent.Folder? && ThreadKey(parent.id) in Left(tree, k)
      && Left(tree, k)[ThreadKey(parent.id)].Thread?
  {
    Update(Left(tree, k),
           parent.(valence := parent.valence - 1,
                   folderCount := parent.folderCount - (if tree[k].Folder? then 1 else 0)))
  }

  /** Files have no children, and a folder has none exactly when its valence is 0. */
  lemma Childless(tree: Tree, nextId: nat, k: Key)
    requires Inv(tree, nextId) && Holds(tree, k)
    ensures tree[k].File? || tree[k].valence <= 0 ==> Children(tree, tree[k].id) == {}
    ensures tree[k].Folder? && tree[k].valence > 0 ==> Children(tree, tree[k].id) != {}
  {
    var id := tree[k].id;
    if tree[k].File? {
      forall j | j in Children(tree, id)
        ensures false
      {
        NotThread(tree, nextId, j);
        PlacedAt(tree, nextId, j);
        LeftThread(tree, nextId, k);
      }
    }
  }

  lemma NotThread(tree: Tree, nextId: nat, j: Key)
    requires Shape(tree, nextId) && j in tree && j.name != []
    ensures Holds(tree, j)
  {
    assert !IsThread(tree, j);
  }

  lemma DeleteKeeps(tree: Tree, nextId: nat, k: Key)
    requires Inv(tree, nextId) && Holds(tree, k) && (tree[k].Folder? ==> tree[k].valence <= 0)
    requires ById(tree, k.parent).Some? && ById(tree, k.parent).value.Folder?
    ensures var p := ById(tree, k.parent).value;
      && p.id == k.parent && ThreadKey(p.id) in Left(tree, k) && Left(tree, k)[ThreadKey(p.id)].Thread?
      && Inv(Deleted(tree, k, p), nextId)
  {
    hide Shape, Children, Update;
    Childless(tree, nextId, k);
    LeaveShape(tree, nextId, k);
    TargetHolds(tree, nextId, k.parent);
    var p, after := ById(tree, k.parent).value, Left(tree, k);
    NamedRecord(tree, nextId, k);
    ParentStays(tree, nextId, k);
    forall j | Holds(after, j) && after[j].Folder?
      ensures after[j].valence == |Children(after, after[j].id)| - Missing(after[j].id, k.parent, -1, k.parent, 0)
    {
      LeaveChildren(tree, k, after[j].id);
      assert Holds(tree, j);
    }
    var q := p.(valence := p.valence - 1, folderCount := p.folderCount - (if tree[k].Folder? then 1 else 0));
    Repair(after, nextId, q, k.parent, -1, k.parent, 0);
    NothingOff(Deleted(tree, k, p), k.parent, k.parent);
  }

  /** The tree after a removal: without the record and its thread, and with the parent's counts. */
  lemma DeletedIs(tree: Tree, nextId: nat, k: Key)
    requires Inv(tree, nextId) && Holds(tree, k) && (tree[k].Folder? ==> tree[k].valence <= 0)
    requires ById(tree, k.parent).Some? && ById(tree, k.parent).value.Folder?
    ensures ThreadKey(k.parent) in tree && tree[ThreadKey(k.parent)].Thread?
    ensures var p := ById(tree, k.parent).value;
      && p.id == k.parent && ThreadKey(p.id) in Left(tree, k) && Left(tree, k)[ThreadKey(p.id)].Thread?
      && Deleted(tree, k, p)
      == (tree - {k, Key(tree[k].id, [])})[
           Target(tree[ThreadKey(k.parent)]) :=
             Folder(k.parent, p.valence - 1, if tree[k].Folder? then p.folderCount - 1 else p.folderCount, p.info)]
  {
    hide Shape, Children, Update;
    Childless(tree, nextId, k);
    TargetHolds(tree, nextId, k.parent);
    ParentStays(tree, nextId, k);
    var p := ById(tree, k.parent).value;
    assert Left(tree, k) == tree - {k, Key(tree[k].id, [])};
    UpdateIs(Left(tree, k), p.(valence := p.valence - 1,
                               folderCount := p.folderCount - (if tree[k].Folder? then 1 else 0)));
  }

  lemma NamedRecord(tree: Tree, nextId: nat, k: Key)
    requires Shape(tree, nextId) && Holds(tree, k)
    ensures k.name != []
  {
  }

  lemma ParentStays(tree: Tree, nextId: nat, k: Key)
    requires Shape(tree, nextId) && Holds(tree, k) && Children(tree, tree[k].id) == {}
    requires ThreadKey(k.parent) in tree && tree[ThreadKey(k.parent)].Thread?
    ensures var t, after := ThreadKey(k.parent), Left(tree, k);
      t in after && after[t] == tree[t] && Target(after[t]) in after && after[Target(after[t])] == tree[Target(tree[t])]
  {
    NamedRecord(tree, nextId, k);
    assert k in Children(tree, k.parent);
    OtherThread(tree, nextId, k, k, ThreadKey(k.parent));
  }

  // Moving.

  /** A key a moved record can be given: in a folder. */
  ghost predicate Destination(tree: Tree, to: Key)
  {
    ById(tree, to.parent).Some? && ById(tree, to.parent).value.Folder?
  }

  /** Under the empty name, which is a thread's, a record is not moved out of itself or into itself. */
  predicate Nameable(tree: Tree, k: Key, to: Key)
    requires Holds(tree, k)
  {
    to.name != [] || (tree[k].id != k.parent && tree[k].id != to.parent)
  }

  /** A record that a move can take: not the root. */
  ghost predicate Movable(tree: Tree, k: Key, to: Key)
  {
    Holds(tree, k) && k.parent != ROOT_PARENT && Nameable(tree, k, to)
  }

  /** A free key, and the key of the record itself, have names. */
  lemma FreeName(tree: Tree, nextId: nat, k: Key, to: Key)
    requires Shape(tree, nextId) && Holds(tree, k) && Destination(tree, to) && (to !in tree || to == k)
    ensures to.name != []
  {
    NamedRecord(tree, nextId, k);
    assert to == Key(to.parent, to.name);
  }

  /** Threads that are there before a move are there after it. */
  lemma ThreadsStay(tree: Tree, nextId: nat, k: Key, to: Key, id: nat)
    requires Shape(tree, nextId) && Holds(tree, k) && to != ThreadKey(tree[k].id)
    requires ThreadKey(id) in tree && tree[ThreadKey(id)].Thread?
    ensures var u, after := ThreadKey(id), Moved(tree, k, to);
      u in after && after[u] == if id == tree[k].id then Thread(to.parent, to.name, tree[k].Folder?) else tree[u]
  {
    hide Shape;
    NamedRecord(tree, nextId, k);
    var u, t, left := ThreadKey(id), ThreadKey(tree[k].id), Left(tree, k);
    assert u != k;
    assert t !in left && (u != t ==> u in left && left[u] == tree[u]);
  }

  /** An update changes no thread. */
  lemma UpdateThreads(tree: Tree, r: Record, u: Key)
    requires !r.Thread? && ThreadKey(r.id) in tree && tree[ThreadKey(r.id)].Thread? && tree[ThreadKey(r.id)].name != []
    requires u.name == []
    ensures var after := Update(tree, r);
      (u in after <==> u in tree) && (u in tree ==> after[u] == tree[u])
  {
    UpdateIs(tree, r);
  }

  /** The folders of a move as they are read before it. */
  lemma Folders(tree: Tree, nextId: nat, k: Key, to: Key)
    requires Shape(tree, nextId) && Holds(tree, k) && k.parent != ROOT_PARENT && Destination(tree, to)
    ensures ById(tree, k.parent).Some? && ById(tree, k.parent).value.Folder?
      && ById(tree, k.parent).value.id == k.parent
    ensures ById(tree, to.parent).value.id == to.parent && to.parent != ROOT_PARENT
    ensures ThreadKey(k.parent) in tree && tree[ThreadKey(k.parent)].Thread? && tree[ThreadKey(k.parent)].name != []
    ensures ThreadKey(to.parent) in tree && tree[ThreadKey(to.parent)].Thread? && tree[ThreadKey(to.parent)].name != []
      && tree[ThreadKey(to.parent)].ofFolder
  {
    PlacedAt(tree, nextId, k);
    TargetHolds(tree, nextId, k.parent);
    TargetHolds(tree, nextId, to.parent);
    RootParentBare(tree, nextId);
  }

  lemma RootParentBare(tree: Tree, nextId: nat)
    requires Shape(tree, nextId)
    ensures ThreadKey(ROOT_PARENT) in tree ==> !tree[ThreadKey(ROOT_PARENT)].Thread?
  {
    if ThreadKey(ROOT_PARENT) in tree && tree[ThreadKey(ROOT_PARENT)].Thread? {
      TargetHolds(tree, nextId, ROOT_PARENT);
    }
  }

  /**
   The whole move: the record and its thread, then the valences of the source and the target folder
   as read before.
   */
  ghost function MovedTree(tree: Tree, nextId: nat, k: Key, to: Key): Tree
    requires Shape(tree, nextId) && Movable(tree, k, to) && Destination(tree, to)
  {
    Folders(tree, nextId, k, to);
    var src, dst := ById(tree, k.parent).value, ById(tree, to.parent).value;
    ThreadsStay(tree, nextId, k, to, src.id);
    ThreadsStay(tree, nextId, k, to, dst.id);
    var moved := Moved(tree, k, to);
    UpdateThreads(moved, src.(valence := src.valence - 1), ThreadKey(dst.id));
    Update(Update(moved, src.(valence := src.valence - 1)), dst.(valence := dst.valence + 1))
  }

  /**
   The tree after a move to a free key, key by key: the record and its thread, then the two folders as
   they were read before, each under the key its thread names by then.
   */
  ghost predicate MoveLeaves(tree: Tree, k: Key, to: Key, after: Tree)
  {
    && Holds(tree, k) && IsThread(tree, ThreadKey(k.parent)) && IsThread(tree, ThreadKey(to.parent))
    && ById(tree, k.parent).Some? && ById(tree, to.parent).Some?
    && var src, dst, id := ById(tree, k.parent).value, ById(tree, to.parent).value, tree[k].id;
    && src.Folder? && dst.Folder?
    && after == (tree - {k, Key(id, [])})[to := tree[k]][
         Key(id, []) := Thread(to.parent, to.name, tree[k].Folder?)][
         (if src.id == id then to else Target(tree[ThreadKey(k.parent)])) :=
           Folder(k.parent, src.valence - 1, src.folderCount, src.info)][
         (if dst.id == id then to else Target(tree[ThreadKey(to.parent)])) :=
           Folder(to.parent, dst.valence + 1, dst.folderCount, dst.info)]
  }

  lemma MovedTreeIs(tree: Tree, nextId: nat, k: Key, to: Key)
    requires Shape(tree, nextId) && Movable(tree, k, to) && Destination(tree, to) && to !in tree
    ensures MoveLeaves(tree, k, to, MovedTree(tree, nextId, k, to))
  {
    hide Shape, Update, Left, Entered;
    Folders(tree, nextId, k, to);
    FreeName(tree, nextId, k, to);
    var src, dst, id := ById(tree, k.parent).value, ById(tree, to.parent).value, tree[k].id;
    ThreadsStay(tree, nextId, k, to, src.id);
    ThreadsStay(tree, nextId, k, to, dst.id);
    var moved := Moved(tree, k, to);
    MovedEntries(tree, k, to);
    var src1, dst1 := src.(valence := src.valence - 1), dst.(valence := dst.valence + 1);
    UpdateThreads(moved, src1, ThreadKey(dst.id));
    UpdateIs(moved, src1);
    UpdateIs(Update(moved, src1), dst1);
  }

  lemma MovedEntries(tree: Tree, k: Key, to: Key)
    requires Holds(tree, k) && to !in tree && to.name != []
    ensures Moved(tree, k, to) == (tree - {k, Key(tree[k].id, [])})[to := tree[k]][
      Key(tree[k].id, []) := Thread(to.parent, to.name, tree[k].Folder?)]
  {
    assert Left(tree, k) == tree - {k, Key(tree[k].id, [])};
  }

  lemma MovedChildren(tree: Tree, nextId: nat, k: Key, to: Key, id: nat)
    requires Shape(tree, nextId) && Holds(tree, k) && to !in tree && to.name != []
    ensures |Children(Moved(tree, k, to), id)|
         == |Children(tree, id)| - (if k.parent == id then 1 else 0) + (if to.parent == id then 1 else 0)
  {
    hide Shape, Children, Entered, Left;
    NamedRecord(tree, nextId, k);
    LeaveChildren(tree, k, id);
    LeftKeys(tree, k, to);
    EnterChildren(Left(tree, k), to, tree[k], id);
  }

  lemma LeftKeys(tree: Tree, k: Key, j: Key)
    requires Holds(tree, k)
    ensures j in Left(tree, k) ==> j in tree
  {
  }

  /** What a moved folder's thread leads to: the same record as before. */
  lemma SameRecord(tree: Tree, nextId: nat, k: Key, to: Key, id: nat)
    requires Shape(tree, nextId) && Holds(tree, k) && to !in tree && to.name != []
    requires ThreadKey(id) in tree && tree[ThreadKey(id)].Thread?
    ensures ById(Moved(tree, k, to), id) == ById(tree, id)
  {
    hide Shape, Moved;
    var u, t := ThreadKey(id), ThreadKey(tree[k].id);
    MovedAt(tree, nextId, k, to, u);
    if id == tree[k].id {
      MovedAt(tree, nextId, k, to, to);
      LeftThread(tree, nextId, k);
    } else {
      OtherThread(tree, nextId, k, to, u);
      MovedAt(tree, nextId, k, to, Target(tree[u]));
    }
  }

  /** A move to a free key in another folder keeps the invariant. */
  lemma MoveKeeps(tree: Tree, nextId: nat, k: Key, to: Key)
    requires Inv(tree, nextId) && Movable(tree, k, to) && Destination(tree, to) && to.parent != k.parent && to !in tree
    ensures Inv(MovedTree(tree, nextId, k, to), nextId)
  {
    hide Shape, Children, Update, Moved;
    Folders(tree, nextId, k, to);
    var src, dst := ById(tree, k.parent).value, ById(tree, to.parent).value;
    var moved := Moved(tree, k, to);
    MoveShape(tree, nextId, k, to);
    SameRecord(tree, nextId, k, to, src.id);
    SameRecord(tree, nextId, k, to, dst.id);
    MovedOff(tree, nextId, k, to);
    var src1, dst1 := src.(valence := src.valence - 1), dst.(valence := dst.valence + 1);
    ThreadsStay(tree, nextId, k, to, src.id);
    ThreadsStay(tree, nextId, k, to, dst.id);
    OffSwap(moved, src.id, -1, dst.id, 1);
    Repair(moved, nextId, src1, src.id, -1, dst.id, 1);
    var half := Update(moved, src1);
    OtherUpdate(moved, nextId, src1, dst.id);
    OffSwap(half, src.id, 0, dst.id, 1);
    Repair(half, nextId, dst1, dst.id, 1, src.id, 0);
    NothingOff(Update(half, dst1), dst.id, src.id);
  }

  lemma OffSwap(tree: Tree, a: nat, da: int, b: nat, db: int)
    requires Off(tree, a, da, b, db)
    ensures Off(tree, b, db, a, da)
  {
    hide Children;
  }

  lemma MovedOff(tree: Tree, nextId: nat, k: Key, to: Key)
    requires Inv(tree, nextId) && Movable(tree, k, to) && to !in tree && to.name != []
    ensures Off(Moved(tree, k, to), k.parent, -1, to.parent, 1)
  {
    hide Shape, Children, Moved;
    var moved := Moved(tree, k, to);
    forall j | Holds(moved, j) && moved[j].Folder?
      ensures moved[j].valence == |Children(moved, moved[j].id)| - Missing(moved[j].id, k.parent, -1, to.parent, 1)
    {
      MovedAt(tree, nextId, k, to, j);
      MovedChildren(tree, nextId, k, to, moved[j].id);
      if j != to {
        assert Holds(tree, j);
      }
    }
  }

  /** An update of one record leaves what another thread leads to. */
  lemma OtherUpdate(tree: Tree, nextId: nat, r: Record, id: nat)
    requires Shape(tree, nextId) && !r.Thread? && id != r.id
    requires ThreadKey(r.id) in tree && tree[ThreadKey(r.id)].Thread? && ThreadKey(id) in tree
      && tree[ThreadKey(id)].Thread?
    ensures ThreadKey(id) in Update(tree, r) && Update(tree, r)[ThreadKey(id)] == tree[ThreadKey(id)]
    ensures ById(Update(tree, r), id) == ById(tree, id)
  {
    hide Shape;
    UpdateIs(tree, r);
    TargetHolds(tree, nextId, r.id);
    TargetHolds(tree, nextId, id);
  }

  /** The thread of a record outlives the updates of a move. */
  lemma MovedThread(tree: Tree, nextId: nat, k: Key, to: Key, id: nat)
    requires Shape(tree, nextId) && Movable(tree, k, to) && Destination(tree, to)
    requires ThreadKey(id) in tree && tree[ThreadKey(id)].Thread?
    ensures var u, after := ThreadKey(id), MovedTree(tree, nextId, k, to);
      u in after && after[u] == if id == tree[k].id then Thread(to.parent, to.name, tree[k].Folder?) else tree[u]
  {
    hide Shape, Moved, Update;
    Folders(tree, nextId, k, to);
    var src, dst := ById(tree, k.parent).value, ById(tree, to.parent).value;
    var moved := Moved(tree, k, to);
    ThreadsStay(tree, nextId, k, to, src.id);
    ThreadsStay(tree, nextId, k, to, dst.id);
    ThreadsStay(tree, nextId, k, to, id);
    var src1 := src.(valence := src.valence - 1);
    UpdateThreads(moved, src1, ThreadKey(dst.id));
    UpdateThreads(moved, src1, ThreadKey(id));
    UpdateThreads(Update(moved, src1), dst.(valence := dst.valence + 1), ThreadKey(id));
  }

  /** On a key that is taken the moved record is lost: its thread names another record, or no record at all. */
  lemma TakenBreaks(tree: Tree, nextId: nat, k: Key, to: Key)
    requires Inv(tree, nextId) && Movable(tree, k, to) && Destination(tree, to) && to in tree && to != k
    ensures !Named(MovedTree(tree, nextId, k, to))
  {
    hide Shape, MovedTree;
    var after := MovedTree(tree, nextId, k, to);
    var x := tree[k].id;
    LeftThread(tree, nextId, k);
    MovedThread(tree, nextId, k, to, x);
    assert IsThread(after, ThreadKey(x));
    if to.name == [] {
      MovedThread(tree, nextId, k, to, to.parent);
      assert to == ThreadKey(to.parent);
    } else {
      NotThread(tree, nextId, to);
      LeftThread(tree, nextId, to);
      if x == tree[to].id {
        Unique(tree, nextId, k, to);
      }
      MovedThread(tree, nextId, k, to, tree[to].id);
      assert IsThread(after, ThreadKey(tree[to].id));
    }
  }

  /** Within one folder the second write of its record undoes the first: its valence ends one too high. */
  lemma SameFolderBreaks(tree: Tree, nextId: nat, k: Key, to: Key)
    requires Inv(tree, nextId) && Movable(tree, k, to) && Destination(tree, to) && to.parent == k.parent
      && (to !in tree || to == k)
    ensures !Counted(MovedTree(tree, nextId, k, to))
  {
    hide Shape, Children, Moved, Update;
    Folders(tree, nextId, k, to);
    var p, moved := ById(tree, k.parent).value, Moved(tree, k, to);
    var p0, p1 := p.(valence := p.valence - 1), p.(valence := p.valence + 1);
    ThreadsStay(tree, nextId, k, to, p.id);
    MoveShape(tree, nextId, k, to);
    TargetHolds(moved, nextId, p.id);
    UpdateIs(moved, p0);
    UpdateIs(Update(moved, p0), p1) by {
      UpdateThreads(moved, p0, ThreadKey(p.id));
    }
    UpdateThreads(moved, p0, ThreadKey(p.id));
    var after := MovedTree(tree, nextId, k, to);
    var at := Target(moved[ThreadKey(p.id)]);
    assert after == moved[at := p0][at := p1];
    assert Holds(after, at) && after[at] == p1;
    SameChildren(moved, after, p.id);
    FewerChildren(tree, nextId, k, to);
    FolderValence(tree, nextId, k.parent);
  }

  lemma FewerChildren(tree: Tree, nextId: nat, k: Key, to: Key)
    requires Shape(tree, nextId) && Holds(tree, k) && to.parent == k.parent && to.name != [] && (to !in tree || to == k)
    ensures |Children(Moved(tree, k, to), k.parent)| == |Children(tree, k.parent)|
  {
    if to == k {
      hide Shape, Moved;
      var a, b := Children(tree, k.parent), Children(Moved(tree, k, to), k.parent);
      forall j
        ensures j in a <==> j in b
      {
        MovedAt(tree, nextId, k, to, j);
      }
      assert a == b;
    } else {
      MovedChildren(tree, nextId, k, to, k.parent);
    }
  }

  lemma FolderValence(tree: Tree, nextId: nat, id: nat)
    requires Inv(tree, nextId) && ById(tree, id).Some? && ById(tree, id).value.Folder?
    ensures ById(tree, id).value.valence == |Children(tree, id)|
  {
    hide Shape, Children;
    TargetHolds(tree, nextId, id);
  }

  /** A move keeps the invariant exactly when it leads to another folder and to a key that is free. */
  lemma MoveExactly(tree: Tree, nextId: nat, k: Key, to: Key)
    requires Inv(tree, nextId) && Movable(tree, k, to) && Destination(tree, to)
    ensures Inv(MovedTree(tree, nextId, k, to), nextId) <==> to.parent != k.parent && to !in tree
  {
    hide MovedTree, Counted;
    if to in tree && to != k {
      TakenBreaks(tree, nextId, k, to);
    } else if to.parent == k.parent {
      SameFolderBreaks(tree, nextId, k, to);
    } else {
      MoveKeeps(tree, nextId, k, to);
    }
  }

  /** A record written back with its id, kind and valence keeps the invariant; with another valence it breaks it. */
  lemma UpdateExactly(tree: Tree, nextId: nat, r: Record)
    requires Inv(tree, nextId) && !r.Thread? && ThreadKey(r.id) in tree && tree[ThreadKey(r.id)].Thread?
    requires ById(tree, r.id).Some? && ById(tree, r.id).value.Folder? == r.Folder?
    ensures Inv(Update(tree, r), nextId) <==> (r.Folder? ==> r.valence == ById(tree, r.id).value.valence)
  {
    hide Shape, Children;
    UpdateIs(tree, r);
    TargetHolds(tree, nextId, r.id);
    UpdateShape(tree, nextId, r);
    var k, after := Target(tree[ThreadKey(r.id)]), Update(tree, r);
    assert Holds(after, k) && after[k] == r;
    forall id
      ensures Children(after, id) == Children(tree, id)
    {
      SameChildren(tree, after, id);
    }
    if r.Folder? ==> r.valence == ById(tree, r.id).value.valence {
      forall j | Holds(after, j) && after[j].Folder?
        ensures after[j].valence == |Children(after, after[j].id)|
      {
        assert Holds(tree, j);
      }
    }
  }

  /**
   What a move under the empty name leaves before the valences are written, for a record that lies
   in itself or is moved into itself: the record stands under its own thread's key, or it is lost and
   its thread names the folder's thread. Either way the invariant is gone, and the updates that
   follow look for a thread where there is none.
   */
  lemma UnnamedMove(tree: Tree, nextId: nat, k: Key, to: Key)
    requires Inv(tree, nextId) && Holds(tree, k) && Destination(tree, to) && !Nameable(tree, k, to)
    ensures var id, t := tree[k].id, ThreadKey(tree[k].id);
      Moved(tree, k, to)
      == Left(tree, k)[t := if to.parent == id then tree[k] else Thread(to.parent, [], tree[k].Folder?)]
    ensures forall next: nat :: !Shape(Moved(tree, k, to), next)
  {
    var id, t, left := tree[k].id, ThreadKey(tree[k].id), Left(tree, k);
    LeftThread(tree, nextId, k);
    NamedRecord(tree, nextId, k);
    TargetHolds(tree, nextId, to.parent);
    hide Shape, Counted;
    assert to == ThreadKey(to.parent) && t !in left && (to != t ==> to in left && left[to] == tree[to]);
    var after := Moved(tree, k, to);
    if to.parent == id {
      assert Holds(after, t);
    } else {
      assert IsThread(after, t) && Target(after[t]) == to;
    }
    forall next: nat
      ensures !Shape(after, next)
    {
      ShapeParts(after, next);
    }
  }

  lemma ShapeParts(tree: Tree, nextId: nat)
    ensures Shape(tree, nextId) ==> Threaded(tree) && Named(tree)
  {
  }

  // The volume header's counts.

  /** The keys of all folders, or of all files. */
  ghost function OfKind(tree: Tree, folders: bool): set<Key>
  {
    set k | k in tree && !tree[k].Thread? && tree[k].Folder? == folders
  }

  lemma UpdateKinds(tree: Tree, nextId: nat, r: Record, folders: bool)
    requires Shape(tree, nextId) && !r.Thread? && ThreadKey(r.id) in tree && tree[ThreadKey(r.id)].Thread?
    requires ById(tree, r.id).Some? && ById(tree, r.id).value.Folder? == r.Folder?
    ensures OfKind(Update(tree, r), folders) == OfKind(tree, folders)
  {
    hide Shape;
    UpdateIs(tree, r);
    TargetHolds(tree, nextId, r.id);
  }

  lemma EnterKinds(tree: Tree, k: Key, r: Record, folders: bool)
    requires k !in tree && !r.Thread? && k != ThreadKey(r.id) && ThreadKey(r.id) !in tree
    ensures |OfKind(Entered(tree, k, r), folders)| == |OfKind(tree, folders)| + (if r.Folder? == folders then 1 else 0)
  {
    var a, b := OfKind(tree, folders), OfKind(Entered(tree, k, r), folders);
    var more := if r.Folder? == folders then {k} else {};
    forall j
      ensures j in b <==> j in a + more
    {
      EnteredAt(tree, k, r, j);
    }
    assert b == a + more && a !! more;
  }

  /** A tree with a record entered, key by key. */
  lemma EnteredAt(tree: Tree, k: Key, r: Record, j: Key)
    requires k !in tree && !r.Thread? && k != ThreadKey(r.id) && ThreadKey(r.id) !in tree
    ensures var after := Entered(tree, k, r);
      && (j in after <==> j in tree || j == k || j == ThreadKey(r.id))
      && (j in after ==> after[j] == if j == k then r
                                     else if j == ThreadKey(r.id) then Thread(k.parent, k.name, r.Folder?) else tree[j])
  {
  }

  lemma LeaveKinds(tree: Tree, nextId: nat, k: Key, folders: bool)
    requires Shape(tree, nextId) && Holds(tree, k)
    ensures |OfKind(Left(tree, k), folders)| == |OfKind(tree, folders)| - (if tree[k].Folder? == folders then 1 else 0)
  {
    LeftThread(tree, nextId, k);
    var a, b := OfKind(tree, folders), OfKind(Left(tree, k), folders);
    assert b == a - {k};
  }

  /** A creation adds one record of its kind when the name is free, and none when it is taken. */
  lemma CreateKinds(tree: Tree, nextId: nat, parent: nat, name: Name, r: Record, folders: bool)
    requires Inv(tree, nextId) && ById(tree, parent).Some? && ById(tree, parent).value.Folder?
    requires !r.Thread? && r.id == nextId && (r.Folder? ==> r.valence == 0)
    requires ThreadKey(parent) in tree && tree[ThreadKey(parent)].Thread? && ById(tree, parent).value.id == parent
    ensures |OfKind(Created(tree, ById(tree, parent).value, name, r), folders)|
         == |OfKind(tree, folders)| + (if r.Folder? == folders && Key(parent, name) !in tree then 1 else 0)
  {
    hide Shape, Update, OfKind;
    var p, k := ById(tree, parent).value, Key(parent, name);
    if k in tree {
      TakenKinds(tree, nextId, parent, name, r, folders);
    } else {
      NewIds(tree, nextId, parent, k);
      TargetHolds(tree, nextId, parent);
      EnterShape(tree, nextId, k, r, nextId + 1);
      EnterKinds(tree, k, r, folders);
      UpdateKinds(Entered(tree, k, r), nextId + 1,
                  p.(valence := p.valence + 1, folderCount := p.folderCount + (if r.Folder? then 1 else 0)), folders);
    }
  }

  lemma TakenKinds(tree: Tree, nextId: nat, parent: nat, name: Name, r: Record, folders: bool)
    requires Inv(tree, nextId) && ById(tree, parent).Some? && ById(tree, parent).value.Folder?
    requires Key(parent, name) in tree && !r.Thread? && r.id == nextId
    requires ThreadKey(parent) in tree && tree[ThreadKey(parent)].Thread? && ById(tree, parent).value.id == parent
    ensures OfKind(Created(tree, ById(tree, parent).value, name, r), folders) == OfKind(tree, folders)
  {
    hide Inv;
    CreatedTaken(tree, nextId, parent, name, r);
  }

  lemma DeleteKinds(tree: Tree, nextId: nat, k: Key, folders: bool)
    requires Inv(tree, nextId) && Holds(tree, k) && (tree[k].Folder? ==> tree[k].valence <= 0)
    requires ById(tree, k.parent).Some? && ById(tree, k.parent).value.Folder?
    requires var p := ById(tree, k.parent).value;
      p.id == k.parent && ThreadKey(p.id) in Left(tree, k) && Left(tree, k)[ThreadKey(p.id)].Thread?
    ensures |OfKind(Deleted(tree, k, ById(tree, k.parent).value), folders)|
         == |OfKind(tree, folders)| - (if tree[k].Folder? == folders then 1 else 0)
  {
    hide Shape, Update, OfKind, Children;
    Childless(tree, nextId, k);
    LeaveShape(tree, nextId, k);
    LeaveKinds(tree, nextId, k, folders);
    ParentStays(tree, nextId, k);
    var p := ById(tree, k.parent).value;
    var q := p.(valence := p.valence - 1, folderCount := p.folderCount - (if tree[k].Folder? then 1 else 0));
    UpdateKinds(Left(tree, k), nextId, q, folders);
  }

  /** How an operation ends: done, refused, or with the program ended by a failed assertion. */
  datatype Outcome = Done | Refused | Stopped

  class Volume {
    var tree: Tree
    var nextCatalogId: nat
    var fileCount: int
    var folderCount: int

    ghost predicate Valid()
      reads this
    {
      && Inv(tree, nextCatalogId)
      && fileCount == |OfKind(tree, false)|
      && folderCount + 1 == |OfKind(tree, true)|
    }

    method GetRecordByCnid(id: nat) returns (r: Option<Record>)
      ensures r == ById(tree, id)
    {
      var key := ThreadKey(id);
      if key !in tree || !tree[key].Thread? {
        return None;
      }
      var thread := tree[key];
      key := Key(thread.parent, thread.name);
      if key !in tree {
        return None;
      }
      return Some(tree[key]);
    }

    /** Writes a record back under the key its thread names. */
    method UpdateCatalog(record: Record)
      requires !record.Thread? && ThreadKey(record.id) in tree && tree[ThreadKey(record.id)].Thread?
      modifies this`tree
      ensures tree == Update(old(tree), record)
      ensures tree == old(tree)[Target(old(tree)[ThreadKey(record.id)]) := record]
    {
      var key := ThreadKey(record.id);
      var thread := tree[key];
      key := Key(thread.parent, thread.name);
      tree := Remove(tree, key);
      tree := Add(tree, key, record);
    }

    /**
     Creates a file or an empty folder in a folder and returns its id. Nothing looks whether the
     name is free: the volume stays valid exactly when it is, and otherwise counts a record that
     is not there.
     */
    method Create(parent: nat, name: Name, folder: bool, info: nat) returns (newId: Option<nat>)
      requires Valid()
      modifies this
      ensures newId.None? <==> old(ById(tree, parent).None? || !ById(tree, parent).value.Folder?)
      ensures newId.None? ==> unchanged(this)
      ensures newId.Some? ==>
        && newId.value == old(nextCatalogId) && nextCatalogId == newId.value + 1
        && ThreadKey(parent) in old(tree) && old(tree)[ThreadKey(parent)].Thread?
        && ById(old(tree), parent).Some? && ById(old(tree), parent).value.Folder?
        && ById(old(tree), parent).value.id == parent
        && tree == Created(old(tree), ById(old(tree), parent).value, name,
                           if folder then Folder(newId.value, 0, 0, info) else File(newId.value, info))
      ensures newId.Some? ==>
        var p, at := ById(old(tree), parent).value, Target(old(tree)[ThreadKey(parent)]);
        var r := if folder then Folder(newId.value, 0, 0, info) else File(newId.value, info);
        tree == (if Key(parent, name) in old(tree) then old(tree) else old(tree)[Key(parent, name) := r])[
                  Key(newId.value, []) := Thread(parent, name, folder)][
                  at := Folder(parent, p.valence + 1, if folder then p.folderCount + 1 else p.folderCount, p.info)]
      ensures newId.Some? ==> (Valid() <==> Key(parent, name) !in old(tree))
      ensures newId.Some? ==>
        var extra := if Key(parent, name) in old(tree) then 1 else 0;
        && fileCount == |OfKind(tree, false)| + (if folder then 0 else extra)
        && folderCount + 1 == |OfKind(tree, true)| + (if folder then extra else 0)
    {
      hide Inv, OfKind, Update, Created;
      var parentFolder := GetRecordByCnid(parent);
      if parentFolder.None? || !parentFolder.value.Folder? {
        return None;
      }
      var id := nextCatalogId;
      nextCatalogId := nextCatalogId + 1;
      if folder {
        folderCount := folderCount + 1;
      } else {
        fileCount := fileCount + 1;
      }
      var record := if folder then Folder(id, 0, 0, info) else File(id, info);
      CreateExactly(tree, id, parent, name, record);
      CreateKinds(tree, id, parent, name, record, false);
      CreateKinds(tree, id, parent, name, record, true);
      CreatedIs(tree, id, parent, name, record);
      CreatedSteps(tree, parentFolder.value, name, record);
      tree := Add(tree, Key(parent, name), record);
      tree := Add(tree, ThreadKey(id), Thread(parent, name, folder));
      var p := parentFolder.value;
      if folder {
        p := p.(folderCount := p.folderCount + 1);
      }
      p := p.(valence := p.valence + 1);
      UpdateCatalog(p);
      return Some(id);
    }

    /** Removes a file or an empty folder. Anything else stops the program. */
    method RemoveFile(key: Key) returns (out: Outcome)
      requires Valid() && Holds(tree, key)
      modifies this`tree, this`fileCount, this`folderCount
      ensures out == Done <==>
        && old(ById(tree, key.parent).Some? && ById(tree, key.parent).value.Folder?)
        && (old(tree)[key].Folder? ==> old(tree)[key].valence <= 0)
      ensures out != Done ==> out == Stopped && tree == old(tree)
      ensures Valid()
      ensures out == Done ==>
        var p := ById(old(tree), key.parent).value;
        && ThreadKey(p.id) in Left(old(tree), key) && Left(old(tree), key)[ThreadKey(p.id)].Thread?
        && tree == Deleted(old(tree), key, p)
        && ThreadKey(key.parent) in old(tree) && old(tree)[ThreadKey(key.parent)].Thread?
        && tree == (old(tree) - {key, Key(old(tree)[key].id, [])})[
             Target(old(tree)[ThreadKey(key.parent)]) :=
               Folder(key.parent, p.valence - 1,
                      if old(tree)[key].Folder? then p.folderCount - 1 else p.folderCount, p.info)]
    {
      hide Inv, OfKind, Update;
      var parentFolder := GetRecordByCnid(key.parent);
      if parentFolder.None? || !parentFolder.value.Folder? {
        return Stopped;
      }
      var record := tree[key];
      if record.Folder? && record.valence > 0 {
        return Stopped;
      }
      DeleteKeeps(tree, nextCatalogId, key);
      DeletedIs(tree, nextCatalogId, key);
      DeleteKinds(tree, nextCatalogId, key, false);
      DeleteKinds(tree, nextCatalogId, key, true);
      tree := Remove(tree, key);
      tree := Remove(tree, ThreadKey(record.id));
      var p := parentFolder.value;
      if record.File? {
        fileCount := fileCount - 1;
      } else {
        p := p.(folderCount := p.folderCount - 1);
        folderCount := folderCount - 1;
      }
      p := p.(valence := p.valence - 1);
      UpdateCatalog(p);
      return Done;
    }

    /**
     Moves a record into another folder or renames it. Nothing looks whether the new key is free
     or the folder is another one: the invariant survives exactly when both are so.
     */
    method Move(key: Key, to: Key) returns (out: Outcome)
      requires Valid() && Holds(tree, key) && Nameable(tree, key, to)
      modifies this`tree
      ensures out == Done <==> old(Movable(tree, key, to) && Destination(tree, to))
      ensures out != Done ==> out == Refused && tree == old(tree)
      ensures out == Done ==>
        && old(Movable(tree, key, to) && Destination(tree, to))
        && tree == MovedTree(old(tree), nextCatalogId, key, to)
      ensures out == Done && to !in old(tree) ==> MoveLeaves(old(tree), key, to, tree)
      ensures out == Done ==> (Inv(tree, nextCatalogId) <==> to.parent != key.parent && to !in old(tree))
      ensures out == Done && to.parent != key.parent && to !in old(tree) ==> Valid()
    {
      hide Shape, Counted, OfKind, Update, Moved, MoveLeaves;
      ghost var before := tree;
      MoveRefused(tree, nextCatalogId, key);
      var srcFolder := GetRecordByCnid(key.parent);
      if srcFolder.None? || !srcFolder.value.Folder? {
        return Refused;
      }
      var dest := GetRecordByCnid(to.parent);
      if dest.None? || !dest.value.Folder? {
        return Refused;
      }
      MoveExactly(tree, nextCatalogId, key, to);
      if to !in tree {
        MovedTreeIs(tree, nextCatalogId, key, to);
      }
      MoveKinds(tree, nextCatalogId, key, to);
      Folders(tree, nextCatalogId, key, to);
      ThreadsStay(tree, nextCatalogId, key, to, srcFolder.value.id);
      ThreadsStay(tree, nextCatalogId, key, to, dest.value.id);
      var record := tree[key];
      tree := Remove(tree, key);
      tree := Remove(tree, ThreadKey(record.id));
      tree := Add(tree, to, record);
      tree := Add(tree, ThreadKey(record.id), Thread(to.parent, to.name, record.Folder?));
      MovedSteps(before, key, to);
      var src := srcFolder.value.(valence := srcFolder.value.valence - 1);
      UpdateThreads(tree, src, ThreadKey(dest.value.id));
      UpdateCatalog(src);
      UpdateCatalog(dest.value.(valence := dest.value.valence + 1));
      return Done;
    }
  }

  /** What a user asks of the catalog. */
  datatype Request =
    | Make(parent: nat, name: Name, folder: bool, info: nat)
    | Delete(key: Key)
    | Transfer(key: Key, to: Key)
    | Write(record: Record)

  /** What the operations ask of their callers, and the two checks that creating and moving leave to them. */
  predicate Sound(tree: Tree, q: Request)
  {
    match q
    case Make(parent, name, _, _) => Key(parent, name) !in tree
    case Delete(key) => Holds(tree, key)
    case Transfer(key, to) =>
      Holds(tree, key) && Nameable(tree, key, to) && to.parent != key.parent && to !in tree
    case Write(r) =>
      && !r.Thread? && ThreadKey(r.id) in tree && tree[ThreadKey(r.id)].Thread?
      && ById(tree, r.id).Some? && ById(tree, r.id).value.Folder? == r.Folder?
      && (r.Folder? ==> r.valence == ById(tree, r.id).value.valence)
  }

  /** Any run of sound requests keeps the volume valid, and every lookup by id then agrees with a scan. */
  method Run(v: Volume, requests: seq<Request>)
    requires v.Valid()
    modifies v
    ensures v.Valid() && v.nextCatalogId >= old(v.nextCatalogId)
    ensures LookupsAgree(v.tree)
  {
    hide Inv, OfKind, Update, LookupsAgree;
    for i := 0 to |requests|
      invariant v.Valid() && v.nextCatalogId >= old(v.nextCatalogId)
    {
      var q := requests[i];
      if Sound(v.tree, q) {
        match q {
          case Make(parent, name, folder, info) =>
            var out := v.Create(parent, name, folder, info);
          case Delete(key) =>
            var out := v.RemoveFile(key);
          case Transfer(key, to) =>
            var out := v.Move(key, to);
          case Write(r) =>
            UpdateExactly(v.tree, v.nextCatalogId, r);
            InvShape(v.tree, v.nextCatalogId);
            UpdateKinds(v.tree, v.nextCatalogId, r, false);
            UpdateKinds(v.tree, v.nextCatalogId, r, true);
            v.UpdateCatalog(r);
        }
      }
    }
    LookupsAreScans(v.tree, v.nextCatalogId);
  }

  lemma InvShape(tree: Tree, nextId: nat)
    requires Inv(tree, nextId)
    ensures Shape(tree, nextId)
  {
  }

  lemma CreatedSteps(tree: Tree, parent: Record, name: Name, r: Record)
    requires parent.Folder? && !r.Thread? && ThreadKey(parent.id) in tree && tree[ThreadKey(parent.id)].Thread?
    ensures var entered := Add(Add(tree, Key(parent.id, name), r), ThreadKey(r.id), Thread(parent.id, name, r.Folder?));
      && ThreadKey(parent.id) in entered && entered[ThreadKey(parent.id)].Thread?
      && Created(tree, parent, name, r)
      == Update(entered, parent.(valence := parent.valence + 1,
                                 folderCount := parent.folderCount + (if r.Folder? then 1 else 0)))
  {
  }

  /** The root folder with one file in it. */
  function OneFile(): Tree
  {
    map[Key(ROOT_PARENT, [82]) := Folder(ROOT, 1, 0, 0), ThreadKey(ROOT) := Thread(ROOT_PARENT, [82], true),
        Key(ROOT, [65]) := File(16, 0), ThreadKey(16) := Thread(ROOT, [65], false)]
  }

  /**
   Creating a folder under the file's name, or under the empty name that a path with a trailing
   slash leads to, breaks the catalog: the new thread names the file, or the root's own thread.
   */
  lemma TakenNameExample(name: Name)
    requires name == [65] || name == []
    ensures Inv(OneFile(), 17) && ById(OneFile(), ROOT) == Some(Folder(ROOT, 1, 0, 0)) && Key(ROOT, name) in OneFile()
    ensures var after := Created(OneFile(), Folder(ROOT, 1, 0, 0), name, Folder(17, 0, 0, 0));
      && !Inv(after, 18) && ThreadKey(17) in after && after[ThreadKey(17)] == Thread(ROOT, name, true)
      && Key(ROOT, name) in after && after[Key(ROOT, name)] == OneFile()[Key(ROOT, name)]
      && ById(after, ROOT) == Some(Folder(ROOT, 2, 1, 0))
  {
    var tree := OneFile();
    assert Children(tree, ROOT) == {Key(ROOT, [65])};
    assert Inv(tree, 17);
    CreateExactly(tree, 17, ROOT, name, Folder(17, 0, 0, 0));
    CreatedTaken(tree, 17, ROOT, name, Folder(17, 0, 0, 0));
  }

  lemma MovedSteps(tree: Tree, k: Key, to: Key)
    requires Holds(tree, k)
    ensures Moved(tree, k, to) == Add(Add(Remove(Remove(tree, k), ThreadKey(tree[k].id)), to, tree[k]),
                                      ThreadKey(tree[k].id), Thread(to.parent, to.name, tree[k].Folder?))
  {
  }

  /** The root is not moved: no record has its parent's id. */
  lemma MoveRefused(tree: Tree, nextId: nat, k: Key)
    requires Inv(tree, nextId) && Holds(tree, k)
    ensures k.parent == ROOT_PARENT <==> ById(tree, k.parent).None? || !ById(tree, k.parent).value.Folder?
  {
    hide Named, Numbered, Counted;
    PlacedAt(tree, nextId, k);
    RootParentBare(tree, nextId);
    if k.parent != ROOT_PARENT {
      TargetHolds(tree, nextId, k.parent);
    }
  }

  lemma MoveKinds(tree: Tree, nextId: nat, k: Key, to: Key)
    requires Inv(tree, nextId) && Movable(tree, k, to) && Destination(tree, to)
    ensures to.parent != k.parent && to !in tree ==>
      forall folders :: |OfKind(MovedTree(tree, nextId, k, to), folders)| == |OfKind(tree, folders)|
  {
    if to.parent != k.parent && to !in tree {
      forall folders: bool
        ensures |OfKind(MovedTree(tree, nextId, k, to), folders)| == |OfKind(tree, folders)|
      {
        MoveKind(tree, nextId, k, to, folders);
      }
    }
  }

  lemma MoveKind(tree: Tree, nextId: nat, k: Key, to: Key, folders: bool)
    requires Inv(tree, nextId) && Movable(tree, k, to) && Destination(tree, to) && to.parent != k.parent && to !in tree
    ensures |OfKind(MovedTree(tree, nextId, k, to), folders)| == |OfKind(tree, folders)|
  {
    hide Shape, Update, Moved, OfKind;
    Folders(tree, nextId, k, to);
    var src, dst := ById(tree, k.parent).value, ById(tree, to.parent).value;
    var moved := Moved(tree, k, to);
    MoveShape(tree, nextId, k, to);
    SameRecord(tree, nextId, k, to, src.id);
    SameRecord(tree, nextId, k, to, dst.id);
    ThreadsStay(tree, nextId, k, to, src.id);
    ThreadsStay(tree, nextId, k, to, dst.id);
    var src1, dst1 := src.(valence := src.valence - 1), dst.(valence := dst.valence + 1);
    UpdateKinds(moved, nextId, src1, folders);
    OtherUpdate(moved, nextId, src1, dst.id);
    UpdateShape(moved, nextId, src1);
    UpdateKinds(Update(moved, src1), nextId, dst1, folders);
    MovedKinds(tree, nextId, k, to, folders);
  }

  lemma UpdateShape(tree: Tree, nextId: nat, r: Record)
    requires Shape(tree, nextId) && !r.Thread? && ThreadKey(r.id) in tree && tree[ThreadKey(r.id)].Thread?
    requires ById(tree, r.id).Some? && ById(tree, r.id).value.Folder? == r.Folder?
    ensures Shape(Update(tree, r), nextId)
  {
    hide Shape;
    UpdateIs(tree, r);
    TargetHolds(tree, nextId, r.id);
    ReplaceShape(tree, nextId, Target(tree[ThreadKey(r.id)]), r);
  }

  lemma MovedKinds(tree: Tree, nextId: nat, k: Key, to: Key, folders: bool)
    requires Shape(tree, nextId) && Holds(tree, k) && to !in tree && to.name != []
    ensures |OfKind(Moved(tree, k, to), folders)| == |OfKind(tree, folders)|
  {
    hide Shape, OfKind, Left, Entered;
    LeaveKinds(tree, nextId, k, folders);
    LeftKeys(tree, k, to);
    LeftThread(tree, nextId, k);
    LeftGone(tree, k);
    EnterKinds(Left(tree, k), to, tree[k], folders);
  }

  lemma LeftGone(tree: Tree, k: Key)
    requires Holds(tree, k)
    ensures ThreadKey(tree[k].id) !in Left(tree, k)
  {
  }
}
