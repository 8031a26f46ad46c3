/** The profiles directory, and the passes that flatten it where it lies. */
module ProfilesRoot {
  import opened Lists
  import opened Flatten

  class Root {
    var entries: List<Entry>

    constructor (entries: List<Entry>)
      ensures this.entries == entries
    {
      this.entries := entries;
    }

    /**
      Moves nested profiles out, pass after pass, until a pass moves nothing. It ends; every
      file, link and empty folder is still there, at the same dashed path, and no folder is empty
      that was not; what was not a nested parent is untouched; and what could be moved has been.
     */
    method FlattenNestedProfiles()
      requires IsTree(entries)
      modifies this
      ensures IsTree(entries)
      ensures Contents(entries, "") == Contents(old(entries), "")
      ensures Kept(old(entries), entries)
      ensures Flat(entries)
    {
      hide IsTree, Contents, TotalDepth, Kept, Flat;
      var moved := true;
      NothingMoved(entries);
      while moved
        invariant IsTree(entries) && Contents(entries, "") == Contents(old(entries), "")
        invariant Kept(old(entries), entries)
        invariant !moved ==> Flat(entries)
        decreases TotalDepth(entries), moved
      {
        ghost var before := entries;
        moved := Pass();
        KeptOn(old(entries), before, entries);
      }
    }

    /** One pass over the top-level entries, in whatever order they are listed. */
    method Pass() returns (moved: bool)
      requires IsTree(entries)
      modifies this
      ensures IsTree(entries)
      ensures Contents(entries, "") == Contents(old(entries), "")
      ensures Kept(old(entries), entries)
      ensures if moved then TotalDepth(entries) < TotalDepth(old(entries)) else entries == old(entries) && Flat(entries)
    {
      hide IsTree, Contents, TotalDepth, Kept, Settled;
      moved := false;
      NothingMoved(entries);
      var todo := Names(entries);
      while todo != {}
        invariant todo <= Names(entries)
        invariant IsTree(entries) && Contents(entries, "") == Contents(old(entries), "")
        invariant Kept(old(entries), entries)
        invariant moved ==> TotalDepth(entries) < TotalDepth(old(entries))
        invariant !moved ==> entries == old(entries) && forall x <- Names(entries) - todo :: Settled(entries, x)
        decreases todo
      {
        var name :| name in todo;
        todo := todo - {name};
        ghost var before := entries;
        if !IsNestedParent(Find(entries, name)) {
          NotAParent(entries, name);
          continue;
        }
        var some := MoveChildren(name);
        KeptOn(old(entries), before, entries);
        moved := moved || some;
      }
    }

    /** Moves the children of a nested parent whose names at the top are free, then the parent if it is empty. */
    method MoveChildren(name: string) returns (moved: bool)
      requires IsTree(entries) && name in Names(entries) && IsNestedParent(Find(entries, name))
      modifies this
      ensures IsTree(entries)
      ensures Contents(entries, "") == Contents(old(entries), "")
      ensures Kept(old(entries), entries)
      ensures Names(old(entries)) - {name} <= Names(entries)
      ensures if moved then TotalDepth(entries) < TotalDepth(old(entries))
              else entries == old(entries) && Settled(entries, name)
    {
      ghost var was := entries;
      assert Find(was, name).Dir? && Find(was, name).entries.Cons?;
      hide IsNestedParent, Contents, TotalDepth, Kept, Target, Move, Plain, Emptied, Remove;
      moved := false;
      NotEmptied(Find(was, name), Plain(name));
      FindIsTree(entries, name);
      var children := Names(Find(entries, name).entries);
      assert Names(was) - {name} <= Names(entries);
      while children != {}
        invariant IsTree(entries) && Names(was) <= Names(entries)
        invariant Contents(entries, "") == Contents(was, "") + Emptied(Find(entries, name), Plain(name))
        invariant forall x <- Names(was) - {name} :: Find(entries, x) == Find(was, x)
        invariant Find(entries, name).Dir? && children <= Names(Find(entries, name).entries)
        invariant moved ==> TotalDepth(entries) < TotalDepth(was)
        invariant !moved ==> entries == was
        invariant !moved ==> forall c <- Names(Find(was, name).entries) - children :: Target(name, c) in Names(was)
        decreases children
      {
        var child :| child in children;
        children := children - {child};
        if Target(name, child) !in Names(entries) {
          NotEmptied(Find(entries, name), Plain(name));
          MoveIsTree(entries, name, child);
          MoveLeaves(entries, name, child);
          MoveKeeps(entries, name, child);
          FindIsTree(entries, name);
          RemoveFinds(Find(entries, name).entries, child);
          entries := Move(entries, name, child);
          moved := true;
        }
      }
      NotEmptied(Find(entries, name), Plain(name));
      if Find(entries, name) == Dir(Nil) { // an emptied parent goes
        RemoveEmpty(entries, name);
        OneLess(Contents(Remove(entries, name), ""), Contents(was, ""), multiset{(Plain(name), Dir(Nil))});
        entries := Remove(entries, name);
      }
      KeptBut(was, entries, name);
    }
  }

  lemma NotEmptied(n: Node, path: string)
    ensures Emptied(n, path) == if n == Dir(Nil) then multiset{(path, Dir(Nil))} else multiset{}
    ensures n.Dir? && Names(n.entries) != {} ==> n != Dir(Nil)
  {}

  lemma OneLess<T>(a: multiset<T>, b: multiset<T>, m: multiset<T>)
    requires a + m == b + m
    ensures a == b
  {
    assert a == (a + m) - m && b == (b + m) - m;
  }

  lemma NothingMoved(es: List<Entry>)
    ensures Kept(es, es)
  {}

  lemma NotAParent(root: List<Entry>, name: string)
    requires name in Names(root) && !IsNestedParent(Find(root, name))
    ensures Settled(root, name)
  {}
}
