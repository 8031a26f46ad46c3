/**
  Flattening saved browser profiles: a profile that was saved under a name with a slash in it
  became folders inside folders, and is moved out to the top, under the name that the slash
  is now written as. Directory trees are values here; `ProfilesRoot` (in its own file) is the
  profiles directory that the passes rewrite.
 */
module Flatten {
  import opened Lists

  /** What a symbolic link leads to, as far as is asked: a file, or a folder that looks like a profile or not. */
  datatype Leads = ToFile | ToDir(profile: bool)

  datatype Node = File(content: string) | Link(to: Leads) | Dir(entries: List<Entry>)

  datatype Entry = Entry(name: string, node: Node)

  const MARKERS := {"Local State", "prefs.js", "times.json"}

  predicate IsFile(n: Node) {
    n.File? || (n.Link? && n.to.ToFile?)
  }

  predicate IsDir(n: Node) {
    n.Dir? || (n.Link? && n.to.ToDir?)
  }

  // ---- which folders are nested parents ----

  /** A real folder that holds only folders, at least one of them with a profile in it. */
  predicate IsNestedParent(n: Node)
    decreases n, 1
  {
    n.Dir? && n.entries.Cons? && AllDirs(n.entries) && AnyProfile(n.entries)
  }

  predicate AllDirs(es: List<Entry>) {
    es.Cons? ==> IsDir(es.head.node) && AllDirs(es.tail)
  }

  predicate AnyProfile(es: List<Entry>)
    decreases es, 0
  {
    es.Cons? && (HoldsProfile(es.head.node) || AnyProfile(es.tail))
  }

  predicate HoldsProfile(n: Node)
    decreases n, 2
  {
    match n
    case File(_) => false
    case Link(to) => to.ToDir? && to.profile
    case Dir(entries) => HasMarker(entries) || IsNestedParent(n)
  }

  predicate HasMarker(es: List<Entry>) {
    es.Cons? && ((es.head.name in MARKERS && IsFile(es.head.node)) || HasMarker(es.tail))
  }

  // ---- names ----

  predicate PathChar(c: char) {
    c == '/' || c == '\\' || c == '\0'
  }

  /** The name with everything that would make it a path written as a dash. */
  function Plain(name: string): (r: string)
    ensures |r| == |name|
  {
    seq(|name|, i requires 0 <= i < |name| => if PathChar(name[i]) then '-' else name[i])
  }

  /** The folder a saved profile of this name lives in. */
  function ProfileFolder(name: string): string {
    if name == "." || name == ".." then seq(|name|, _ => '-') else Plain(name)
  }

  /** Always one path component, never "." or "..", and a fixed point: a plain name is its own folder. */
  lemma ProfileFolderIsPlain(name: string)
    ensures var f := ProfileFolder(name);
      && |f| == |name| && (forall c <- f :: !PathChar(c)) && f != "." && f != ".."
      && ProfileFolder(f) == f
    ensures (forall c <- name :: !PathChar(c)) && name != "." && name != ".." ==> ProfileFolder(name) == name
    ensures forall i | 0 <= i < |name| ::
              ProfileFolder(name)[i] ==
              if name[i] in {'/', '\\', '\0'} || name == "." || name == ".." then '-' else name[i]
  {
    if name == "." || name == ".." {
      assert ProfileFolder(name)[0] == '-';
    } else {
      var f := Plain(name);
      if |name| == 1 { assert name == [name[0]] && f[0] != '.'; }
      if |name| == 2 { assert name == [name[0], name[1]] && (f[0] != '.' || f[1] != '.'); }
      assert Plain(f) == f;
    }
  }

  /** The folder for a child of a nested parent. */
  function Target(name: string, child: string): string {
    ProfileFolder(name + "/" + child)
  }

  lemma TargetIs(name: string, child: string)
    ensures Target(name, child) == Plain(name) + "-" + Plain(child)
    ensures Plain(Target(name, child)) == Target(name, child)
    ensures Target(name, child) != name
  {
    var whole := name + "/" + child;
    assert whole[|name|] == '/';
    assert Plain(whole) == Plain(name) + "-" + Plain(child);
    assert Plain(Plain(whole)) == Plain(whole);
    assert |Target(name, child)| > |name|;
  }

  // ---- directories as lists of entries ----

  function Names(es: List<Entry>): set<string> {
    match es case Nil => {} case Cons(e, rest) => {e.name} + Names(rest)
  }

  predicate Distinct(es: List<Entry>) {
    es.Cons? ==> es.head.name !in Names(es.tail) && Distinct(es.tail)
  }

  function Find(es: List<Entry>, name: string): (n: Node)
    requires name in Names(es)
  {
    if es.head.name == name then es.head.node else Find(es.tail, name)
  }

  function Remove(es: List<Entry>, name: string): List<Entry> {
    match es
    case Nil => Nil
    case Cons(e, rest) => if e.name == name then rest else Cons(e, Remove(rest, name))
  }

  function Replace(es: List<Entry>, name: string, n: Node): List<Entry> {
    match es
    case Nil => Nil
    case Cons(e, rest) => if e.name == name then Cons(Entry(name, n), rest) else Cons(e, Replace(rest, name, n))
  }

  lemma {:induction false} FindSmaller(es: List<Entry>, name: string)
    requires name in Names(es)
    ensures Size(Find(es, name)) <= SizeAll(es)
  {
    if es.head.name != name {
      FindSmaller(es.tail, name);
    }
  }

  // ---- exactly the nested parents ----

  /** A folder that looks like a profile itself: one of the browsers' files is in it. */
  predicate ShowsProfile(n: Node) {
    match n
    case File(_) => false
    case Link(to) => to == ToDir(true)
    case Dir(es) =>
      exists m | m in {"Local State", "prefs.js", "times.json"} ::
        m in Names(es) && (Find(es, m).File? || Find(es, m) == Link(ToFile))
  }

  /** Real folders with nothing but folders in them, one inside the other along `path`, and at its end a profile. */
  predicate LeadsToProfile(n: Node, path: List<string>)
    decreases path
  {
    && path.Cons? && n.Dir? && path.head in Names(n.entries)
    && (forall x <- Names(n.entries) :: !Find(n.entries, x).File? && Find(n.entries, x) != Link(ToFile))
    && var child := Find(n.entries, path.head);
    if path.tail.Nil? then ShowsProfile(child) else LeadsToProfile(child, path.tail)
  }

  lemma FirstFound(es: List<Entry>)
    requires Distinct(es) && es.Cons?
    ensures es.head.name in Names(es) && Find(es, es.head.name) == es.head.node
    ensures forall x <- Names(es.tail) :: x in Names(es) && Find(es, x) == Find(es.tail, x)
    ensures forall x <- Names(es) :: x == es.head.name || x in Names(es.tail)
  {}

  lemma {:induction false} MarkerExactly(es: List<Entry>)
    requires Distinct(es)
    ensures HasMarker(es) <==> ShowsProfile(Dir(es))
  {
    if es.Cons? {
      MarkerExactly(es.tail);
      FirstFound(es);
      assert HasMarker(es.tail) ==> ShowsProfile(Dir(es));
    }
  }

  lemma {:induction false} AllDirsExactly(es: List<Entry>)
    requires Distinct(es)
    ensures AllDirs(es) <==> forall x <- Names(es) :: IsDir(Find(es, x))
  {
    if es.Cons? {
      AllDirsExactly(es.tail);
      FirstFound(es);
      if AllDirs(es) {
        forall x <- Names(es) ensures IsDir(Find(es, x)) {
          assert x != es.head.name ==> Find(es, x) == Find(es.tail, x);
        }
      }
      if forall x <- Names(es) :: IsDir(Find(es, x)) {
        forall x <- Names(es.tail) ensures IsDir(Find(es.tail, x)) { assert x in Names(es); }
        assert IsDir(Find(es, es.head.name));
      }
    }
  }

  lemma {:induction false} ProfileThere(es: List<Entry>) returns (x: string)
    requires Distinct(es) && AnyProfile(es)
    ensures x in Names(es) && HoldsProfile(Find(es, x))
  {
    if HoldsProfile(es.head.node) {
      x := es.head.name;
    } else {
      x := ProfileThere(es.tail);
      FirstFound(es);
    }
  }

  lemma {:induction false} AnyProfileBy(es: List<Entry>, x: string)
    requires Distinct(es) && x in Names(es) && HoldsProfile(Find(es, x))
    ensures AnyProfile(es)
  {
    if x != es.head.name {
      AnyProfileBy(es.tail, x);
    }
  }

  lemma HoldsExactly(n: Node)
    requires NodeIsTree(n)
    ensures HoldsProfile(n) <==> ShowsProfile(n) || IsNestedParent(n)
  {
    hide IsNestedParent;
    if n.Dir? { MarkerExactly(n.entries); }
    if n.Link? { assert !IsNestedParent(n) by { LinkIsNoParent(n); } }
    if n.File? { assert !IsNestedParent(n) by { LinkIsNoParent(n); } }
  }

  lemma LinkIsNoParent(n: Node)
    requires !n.Dir?
    ensures !IsNestedParent(n)
  {}

  lemma ParentMeans(n: Node)
    requires NodeIsTree(n)
    ensures IsNestedParent(n) <==>
            && n.Dir? && (forall x <- Names(n.entries) :: IsDir(Find(n.entries, x)))
            && exists x <- Names(n.entries) :: ShowsProfile(Find(n.entries, x)) || IsNestedParent(Find(n.entries, x))
  {
    if n.Dir? {
      AllDirsExactly(n.entries);
      if AnyProfile(n.entries) {
        var x := ProfileThere(n.entries);
        FindIsTree(n.entries, x);
        HoldsExactly(Find(n.entries, x));
      }
      forall x <- Names(n.entries) | ShowsProfile(Find(n.entries, x)) || IsNestedParent(Find(n.entries, x))
        ensures AnyProfile(n.entries)
      {
        FindIsTree(n.entries, x);
        HoldsExactly(Find(n.entries, x));
        AnyProfileBy(n.entries, x);
      }
    }
  }

  /** A folder is a nested parent if and only if folders that hold only folders lead from it to a profile. */
  lemma {:induction false} NestedParentExactly(n: Node)
    requires NodeIsTree(n)
    ensures IsNestedParent(n) <==> exists path :: LeadsToProfile(n, path)
  {
    if IsNestedParent(n) { var path := PathToProfile(n); }
    if path :| LeadsToProfile(n, path) { PathIsNested(n, path); }
  }

  lemma {:induction false} PathToProfile(n: Node) returns (path: List<string>)
    requires NodeIsTree(n) && IsNestedParent(n)
    ensures LeadsToProfile(n, path)
    decreases Size(n)
  {
    ParentMeans(n);
    hide IsNestedParent, ShowsProfile;
    var x :| x in Names(n.entries) && (ShowsProfile(Find(n.entries, x)) || IsNestedParent(Find(n.entries, x)));
    if ShowsProfile(Find(n.entries, x)) {
      path := Cons(x, Nil);
    } else {
      FindSmaller(n.entries, x);
      FindIsTree(n.entries, x);
      var rest := PathToProfile(Find(n.entries, x));
      path := Cons(x, rest);
    }
  }

  lemma {:induction false} PathIsNested(n: Node, path: List<string>)
    requires NodeIsTree(n) && LeadsToProfile(n, path)
    ensures IsNestedParent(n)
    decreases path
  {
    ParentMeans(n);
    hide IsNestedParent, ShowsProfile;
    assert path.head in Names(n.entries);
    if path.tail.Cons? {
      FindIsTree(n.entries, path.head);
      PathIsNested(Find(n.entries, path.head), path.tail);
    }
  }

  lemma {:induction false} RemoveFinds(es: List<Entry>, name: string)
    requires Distinct(es)
    ensures Distinct(Remove(es, name)) && Names(Remove(es, name)) == Names(es) - {name}
    ensures forall x <- Names(es) - {name} :: Find(Remove(es, name), x) == Find(es, x)
  {
    if es.Cons? && es.head.name != name {
      RemoveFinds(es.tail, name);
    }
  }

  lemma {:induction false} ReplaceFinds(es: List<Entry>, name: string, n: Node)
    requires Distinct(es)
    ensures Distinct(Replace(es, name, n)) && Names(Replace(es, name, n)) == Names(es)
    ensures forall x <- Names(es) :: Find(Replace(es, name, n), x) == if x == name then n else Find(es, x)
  {
    if es.Cons? && es.head.name != name {
      ReplaceFinds(es.tail, name, n);
    }
  }

  // ---- how deep a tree is, and what is in it ----

  /** How many nodes there are, the top included. */
  function Size(n: Node): (k: nat)
    ensures k >= 1
    decreases n, 1
  {
    if n.Dir? then 1 + SizeAll(n.entries) else 1
  }

  function SizeAll(es: List<Entry>): nat
    decreases es, 0
  {
    match es case Nil => 0 case Cons(e, rest) => Size(e.node) + SizeAll(rest)
  }

  /** The depths of all the nodes of these entries, added up; the entries themselves are at depth 1. */
  function TotalDepth(es: List<Entry>): nat
    decreases es, 0
  {
    match es
    case Nil => 0
    case Cons(e, rest) => Size(e.node) + DepthBelow(e.node) + TotalDepth(rest)
  }

  function DepthBelow(n: Node): nat
    decreases n, 1
  {
    if n.Dir? then TotalDepth(n.entries) else 0
  }

  /** Every file, link and empty folder, by its path written with dashes. */
  function Contents(es: List<Entry>, prefix: string): multiset<(string, Node)>
    decreases es, 0
  {
    match es
    case Nil => multiset{}
    case Cons(e, rest) => ContentsOf(e.node, prefix + Plain(e.name)) + Contents(rest, prefix)
  }

  function ContentsOf(n: Node, path: string): multiset<(string, Node)>
    decreases n, 1
  {
    if n.Dir? && n.entries.Cons? then Contents(n.entries, path + "-") else multiset{(path, n)}
  }

  lemma {:induction false} RemoveCounts(es: List<Entry>, name: string, prefix: string)
    requires name in Names(es)
    ensures var n := Find(es, name);
      && SizeAll(es) == SizeAll(Remove(es, name)) + Size(n)
      && TotalDepth(es) == TotalDepth(Remove(es, name)) + Size(n) + DepthBelow(n)
      && Contents(es, prefix) == Contents(Remove(es, name), prefix) + ContentsOf(n, prefix + Plain(name))
  {
    if es.head.name != name {
      RemoveCounts(es.tail, name, prefix);
    }
  }

  lemma Around<T>(head: multiset<T>, a: multiset<T>, b: multiset<T>, c: multiset<T>, d: multiset<T>)
    requires a + b == c + d
    ensures (head + a) + b == (head + c) + d
  {
    assert (head + a) + b == head + (a + b);
    assert (head + c) + d == head + (c + d);
  }

  lemma {:induction false} ReplaceCounts(es: List<Entry>, name: string, n: Node, prefix: string)
    requires name in Names(es)
    ensures var was := Find(es, name);
      && TotalDepth(Replace(es, name, n)) + Size(was) + DepthBelow(was) == TotalDepth(es) + Size(n) + DepthBelow(n)
      && Contents(Replace(es, name, n), prefix) + ContentsOf(was, prefix + Plain(name))
         == Contents(es, prefix) + ContentsOf(n, prefix + Plain(name))
  {
    var head, rest := ContentsOf(es.head.node, prefix + Plain(es.head.name)), Contents(es.tail, prefix);
    if es.head.name != name {
      ReplaceCounts(es.tail, name, n, prefix);
      Around(head, Contents(Replace(es.tail, name, n), prefix), ContentsOf(Find(es, name), prefix + Plain(name)),
             rest, ContentsOf(n, prefix + Plain(name)));
    }
  }

  // ---- one move ----

  /** A child moved out of its parent, to the name that it has at the top. */
  function Move(root: List<Entry>, name: string, child: string): List<Entry>
    requires name in Names(root) && Find(root, name).Dir? && child in Names(Find(root, name).entries)
  {
    var inside := Find(root, name).entries;
    Cons(Entry(Target(name, child), Find(inside, child)), Replace(root, name, Dir(Remove(inside, child))))
  }

  /** A parent that its last child has left is an empty folder more. */
  function Emptied(left: Node, path: string): multiset<(string, Node)> {
    if left == Dir(Nil) then multiset{(path, Dir(Nil))} else multiset{}
  }

  /** A move lowers the tree by what it moves, and keeps everything else at its dashed path. */
  lemma MoveKeeps(root: List<Entry>, name: string, child: string)
    requires name in Names(root) && Find(root, name).Dir? && child in Names(Find(root, name).entries)
    ensures TotalDepth(Move(root, name, child)) == TotalDepth(root) - Size(Find(Find(root, name).entries, child))
    ensures Contents(Move(root, name, child), "") ==
            Contents(root, "") + Emptied(Dir(Remove(Find(root, name).entries, child)), Plain(name))
  {
    var inside := Find(root, name).entries;
    var moved, left := Find(inside, child), Dir(Remove(inside, child));
    var path := "" + Plain(name);
    RemoveCounts(inside, child, path + "-");
    ReplaceCounts(root, name, left, "");
    MoveContents(root, name, child);
    hide Target, Plain, Remove, Replace, Names, Find, Contents, ContentsOf;
  }

  lemma MoveContents(root: List<Entry>, name: string, child: string)
    requires name in Names(root) && Find(root, name).Dir? && child in Names(Find(root, name).entries)
    ensures Contents(Move(root, name, child), "") ==
            Contents(root, "") + Emptied(Dir(Remove(Find(root, name).entries, child)), Plain(name))
  {
    var inside := Find(root, name).entries;
    var moved, left := Find(inside, child), Dir(Remove(inside, child));
    var path := Plain(name);
    assert "" + path == path;
    TargetIs(name, child);
    RemoveCounts(inside, child, path + "-");
    ReplaceCounts(root, name, left, "");
    FolderContents(Find(root, name), path);
    FolderContents(left, path);
    MovedContents(root, name, child);
    hide Target, Plain, Remove, Replace, Names, Find, Move, Size, SizeAll, TotalDepth, DepthBelow, Contents, ContentsOf;
    var there, here := ContentsOf(moved, path + "-" + Plain(child)), Contents(left.entries, path + "-");
    Cancelled(Contents(Replace(root, name, left), ""), there, here, Contents(root, ""), Emptied(left, path));
  }

  lemma MovedContents(root: List<Entry>, name: string, child: string)
    requires name in Names(root) && Find(root, name).Dir? && child in Names(Find(root, name).entries)
    ensures var inside := Find(root, name).entries;
      Contents(Move(root, name, child), "") ==
      ContentsOf(Find(inside, child), Plain(name) + "-" + Plain(child))
      + Contents(Replace(root, name, Dir(Remove(inside, child))), "")
    ensures Emptied(Find(root, name), Plain(name)) == multiset{}
  {
    TargetIs(name, child);
    hide Target, Plain, Remove, Replace;
    assert "" + Plain(Target(name, child)) == Plain(name) + "-" + Plain(child);
  }

  lemma FolderContents(n: Node, path: string)
    requires n.Dir?
    ensures ContentsOf(n, path) == Contents(n.entries, path + "-") + Emptied(n, path)
  {}

  lemma Cancelled<T>(after: multiset<T>, there: multiset<T>, here: multiset<T>, before: multiset<T>, more: multiset<T>)
    requires after + (here + there) == before + (here + more)
    ensures there + after == before + more
  {
    assert (there + after) == (after + (here + there)) - here;
    assert (before + more) == (before + (here + more)) - here;
  }

  /** A move to a free name leaves every other entry, and the rest of the parent, as it was. */
  lemma MoveLeaves(root: List<Entry>, name: string, child: string)
    requires Distinct(root) && name in Names(root) && Find(root, name).Dir?
    requires child in Names(Find(root, name).entries) && Target(name, child) !in Names(root)
    ensures var after := Move(root, name, child);
      && Distinct(after) && Names(after) == Names(root) + {Target(name, child)}
      && Find(after, name) == Dir(Remove(Find(root, name).entries, child))
      && Find(after, Target(name, child)) == Find(Find(root, name).entries, child)
      && forall x <- Names(root) - {name} :: Find(after, x) == Find(root, x)
  {
    TargetIs(name, child);
    ReplaceFinds(root, name, Dir(Remove(Find(root, name).entries, child)));
  }

  // ---- what flattening keeps and reaches ----

  /** A directory tree: at every level each name is there once. */
  predicate IsTree(es: List<Entry>)
    decreases es, 0
  {
    Distinct(es) && (es.Cons? ==> NodeIsTree(es.head.node) && IsTree(es.tail))
  }

  predicate NodeIsTree(n: Node)
    decreases n, 1
  {
    n.Dir? ==> IsTree(n.entries)
  }

  lemma {:induction false} FindIsTree(es: List<Entry>, name: string)
    requires IsTree(es) && name in Names(es)
    ensures NodeIsTree(Find(es, name))
  {
    if es.head.name != name {
      FindIsTree(es.tail, name);
    }
  }

  lemma {:induction false} RemoveIsTree(es: List<Entry>, name: string)
    requires IsTree(es)
    ensures IsTree(Remove(es, name))
  {
    RemoveFinds(es, name);
    if es.Cons? && es.head.name != name {
      RemoveIsTree(es.tail, name);
    }
  }

  lemma {:induction false} ReplaceIsTree(es: List<Entry>, name: string, n: Node)
    requires IsTree(es) && NodeIsTree(n)
    ensures IsTree(Replace(es, name, n))
  {
    ReplaceFinds(es, name, n);
    if es.Cons? && es.head.name != name {
      ReplaceIsTree(es.tail, name, n);
    }
  }

  lemma MoveIsTree(root: List<Entry>, name: string, child: string)
    requires IsTree(root) && name in Names(root) && Find(root, name).Dir?
    requires child in Names(Find(root, name).entries) && Target(name, child) !in Names(root)
    ensures IsTree(Move(root, name, child))
  {
    var inside := Find(root, name).entries;
    FindIsTree(root, name);
    FindIsTree(inside, child);
    RemoveIsTree(inside, child);
    ReplaceIsTree(root, name, Dir(Remove(inside, child)));
    ReplaceFinds(root, name, Dir(Remove(inside, child)));
  }

  /** Every top-level entry that is not a nested parent is still there, untouched. */
  predicate Kept(was: List<Entry>, now: List<Entry>) {
    forall x <- Names(was) :: !IsNestedParent(Find(was, x)) ==> x in Names(now) && Find(now, x) == Find(was, x)
  }

  /** This entry holds nothing back that could be moved. */
  predicate Settled(root: List<Entry>, name: string)
    requires name in Names(root)
  {
    IsNestedParent(Find(root, name)) ==>
      forall child <- Names(Find(root, name).entries) :: Target(name, child) in Names(root)
  }

  /** Each remaining nested parent has only children whose name at the top is taken. */
  predicate Flat(root: List<Entry>) {
    forall x <- Names(root) :: Settled(root, x)
  }

  lemma RemoveEmpty(root: List<Entry>, name: string)
    requires IsTree(root) && name in Names(root) && Find(root, name) == Dir(Nil)
    ensures IsTree(Remove(root, name)) && TotalDepth(Remove(root, name)) < TotalDepth(root)
    ensures Contents(root, "") == Contents(Remove(root, name), "") + multiset{(Plain(name), Dir(Nil))}
    ensures Names(Remove(root, name)) == Names(root) - {name}
    ensures forall x <- Names(root) - {name} :: Find(Remove(root, name), x) == Find(root, x)
  {
    RemoveIsTree(root, name);
    RemoveFinds(root, name);
    RemoveCounts(root, name, "");
    assert "" + Plain(name) == Plain(name);
  }

  lemma KeptOn(a: List<Entry>, b: List<Entry>, c: List<Entry>)
    requires Kept(a, b) && Kept(b, c)
    ensures Kept(a, c)
  {}

  /** One nested parent changed, or went, and entries came: all others are as they were. */
  lemma KeptBut(was: List<Entry>, now: List<Entry>, name: string)
    requires name in Names(was) && IsNestedParent(Find(was, name))
    requires Names(was) - {name} <= Names(now)
    requires forall x <- Names(was) - {name} :: Find(now, x) == Find(was, x)
    ensures Kept(was, now)
  {
    hide IsNestedParent;
  }
}
