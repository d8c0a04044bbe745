/** The download preflight: a trie of collision identities against pairwise comparison (scripts/s3_manage.py). */
module Preflight {
  import opened Sequences
  import opened DownloadKeys

  /** A queued key with the collision identities of its components. */
  datatype Entry = Entry(key: string, ids: seq<string>)

  /** One destination equals the other or lies below it. */
  predicate Related(p: seq<string>, q: seq<string>) {
    p <= q || q <= p
  }

  /** The keys of the entries whose path passes through `p`, in order. */
  function KeysThrough(entries: seq<Entry>, p: seq<string>): seq<string> {
    if entries == [] then []
    else
      var last := entries[|entries| - 1];
      KeysThrough(entries[..|entries| - 1], p) + if p <= last.ids then [last.key] else []
  }

  /** The keys of the entries whose path ends at `p`, in order. */
  function KeysAt(entries: seq<Entry>, p: seq<string>): seq<string> {
    if entries == [] then []
    else
      var last := entries[|entries| - 1];
      KeysAt(entries[..|entries| - 1], p) + if p == last.ids then [last.key] else []
  }

  lemma {:induction false} KeysThroughMembers(entries: seq<Entry>, p: seq<string>)
    ensures forall k :: k in KeysThrough(entries, p) <==> exists e :: e in entries && p <= e.ids && e.key == k
  {
    if entries == [] {
    } else {
      var init, last := entries[..|entries| - 1], entries[|entries| - 1];
      assert entries == init + [last];
      KeysThroughMembers(init, p);
    }
  }

  lemma {:induction false} KeysAtMembers(entries: seq<Entry>, p: seq<string>)
    ensures forall k :: k in KeysAt(entries, p) <==> exists e :: e in entries && p == e.ids && e.key == k
  {
    if entries == [] {
    } else {
      var init, last := entries[..|entries| - 1], entries[|entries| - 1];
      assert entries == init + [last];
      KeysAtMembers(init, p);
    }
  }

  // ---------------------------------------------------------------- the trie

  class TrieNode {
    var children: map<string, TrieNode>
    var terminals: seq<string>
    var keys: seq<string>

    constructor ()
      ensures children == map[] && terminals == [] && keys == []
    {
      children := map[];
      terminals := [];
      keys := [];
    }
  }

  /** The children of every known prefix, as a value. */
  type Kids = map<seq<string>, map<string, TrieNode>>

  /** The child of `p` under `c` is the node of `p + [c]`, and known prefixes are closed under prefix. */
  ghost predicate Shape(nodes: map<seq<string>, TrieNode>, kids: Kids) {
    && [] in nodes && (forall p :: p in nodes ==> p in kids)
    && (forall p, c :: p + [c] in nodes ==> p in nodes && c in kids[p] && kids[p][c] == nodes[p + [c]])
    && (forall p, c :: p in nodes && c in kids[p] ==> p + [c] in nodes)
    && (forall p, q :: p in nodes && q in nodes && p != q ==> nodes[p] != nodes[q])
  }

  lemma LastStep(r: seq<string>, c: string, p: seq<string>, identity: string)
    ensures r + [c] == p + [identity] <==> r == p && c == identity
  {
    assert (r + [c])[..|r|] == r && (p + [identity])[..|p|] == p;
    assert (r + [c])[|r|] == c && (p + [identity])[|p|] == identity;
  }

  lemma ShapeGrows(nodes: map<seq<string>, TrieNode>, kids: Kids, p: seq<string>, identity: string, next: TrieNode)
    requires Shape(nodes, kids) && p in nodes && p + [identity] !in nodes
    requires forall q :: q in nodes ==> nodes[q] != next
    ensures Shape(nodes[p + [identity] := next], kids[p := kids[p][identity := next]][p + [identity] := map[]])
  {
    var nodes', kids' := nodes[p + [identity] := next], kids[p := kids[p][identity := next]][p + [identity] := map[]];
    forall r, c | r + [c] in nodes' ensures r in nodes' && c in kids'[r] && kids'[r][c] == nodes'[r + [c]] {
      LastStep(r, c, p, identity);
    }
    forall r, c | r in nodes' && c in kids'[r] ensures r + [c] in nodes' {
      LastStep(r, c, p, identity);
    }
  }

  /** Every prefix of every entry is known. */
  ghost predicate Covers(nodes: map<seq<string>, TrieNode>, entries: seq<Entry>) {
    forall e, k :: e in entries && 0 <= k <= |e.ids| ==> e.ids[..k] in nodes
  }

  /** Nothing passes through an unknown prefix. */
  lemma UnknownIsUnused(nodes: map<seq<string>, TrieNode>, entries: seq<Entry>, q: seq<string>)
    requires Covers(nodes, entries) && q !in nodes
    ensures KeysThrough(entries, q) == [] && KeysAt(entries, q) == []
  {
    forall e | e in entries ensures !(q <= e.ids) {
      PrefixTake(q, e.ids);
    }
    NothingThrough(entries, q);
  }

  lemma PrefixTake(q: seq<string>, ids: seq<string>)
    ensures q <= ids ==> exists k :: 0 <= k <= |ids| && ids[..k] == q
  {
    if q <= ids {
      assert ids[..|q|] == q;
    }
  }

  lemma {:induction false} NothingThrough(entries: seq<Entry>, q: seq<string>)
    requires forall e :: e in entries ==> !(q <= e.ids)
    ensures KeysThrough(entries, q) == [] && KeysAt(entries, q) == []
  {
    if entries == [] {
    } else {
      NothingThrough(entries[..|entries| - 1], q);
    }
  }

  /** The trie, with the node of every known prefix kept as ghost state. */
  class Trie {
    const root: TrieNode
    ghost var nodes: map<seq<string>, TrieNode>
    ghost var kids: Kids
    ghost var entries: seq<Entry>
    ghost var Repr: set<TrieNode>

    ghost predicate Valid()
      reads this, Repr
    {
      && Closed() && nodes[[]] == root
      && Shape(nodes, kids)
      && Covers(nodes, entries)
      && forall p :: p in nodes ==> NodeValid(p)
    }

    ghost predicate Closed()
      reads this
    {
      [] in nodes && forall p :: p in nodes ==> nodes[p] in Repr && p in kids
    }

    /** `keys` holds the entries passing through the node, `terminals` those ending there. */
    ghost predicate NodeValid(p: seq<string>)
      requires p in nodes && nodes[p] in Repr && p in kids
      reads this, Repr
    {
      && nodes[p].children == kids[p]
      && nodes[p].keys == KeysThrough(entries, p)
      && nodes[p].terminals == KeysAt(entries, p)
    }

    constructor ()
      ensures Valid() && entries == [] && fresh(Repr)
    {
      var node := new TrieNode();
      root := node;
      nodes, kids := map[[] := node], map[[] := map[]];
      entries := [];
      Repr := {node};
    }

    /** `children.setdefault(identity, ...)`: one step down, creating the child where it is missing. */
    method Descend(node: TrieNode, identity: string, ghost p: seq<string>) returns (next: TrieNode)
      requires Valid() && p in nodes && nodes[p] == node
      modifies this`nodes, this`kids, this`Repr, node`children
      ensures Valid() && fresh(Repr - old(Repr)) && Repr >= old(Repr)
      ensures forall q :: q in old(nodes) ==> q in nodes && nodes[q] == old(nodes[q])
      ensures p + [identity] in nodes && nodes[p + [identity]] == next
    {
      hide KeysThrough, KeysAt, Shape, Covers;
      ChildIsKnown(nodes, kids, p, identity);
      assert NodeValid(p);
      if identity in node.children {
        next := node.children[identity];
      } else {
        next := AddChild(node, identity, p);
      }
    }

    method AddChild(node: TrieNode, identity: string, ghost p: seq<string>) returns (next: TrieNode)
      requires Valid() && p in nodes && nodes[p] == node && p + [identity] !in nodes
      modifies this`nodes, this`kids, this`Repr, node`children
      ensures Valid() && fresh(Repr - old(Repr)) && Repr >= old(Repr)
      ensures nodes == old(nodes)[p + [identity] := next]
    {
      hide KeysThrough, KeysAt, Shape, Covers, NodeValid;
      next := new TrieNode();
      ghost var q := p + [identity];
      ChildIsKnown(nodes, kids, p, identity);
      UnknownIsUnused(nodes, entries, q);
      assert forall r :: r in nodes ==> NodeValid(r) && nodes[r] != next;
      ShapeGrows(nodes, kids, p, identity, next);
      CoversGrows(nodes, entries, q, next);
      SeparateNodes(nodes, kids, p);
      Link(node, identity, next, p, q);
    }

    /** Hangs an empty node below another. */
    method Link(node: TrieNode, identity: string, next: TrieNode, ghost p: seq<string>, ghost q: seq<string>)
      requires Closed() && forall r :: r in nodes ==> NodeValid(r)
      requires p in nodes && nodes[p] == node && q !in nodes
      requires forall r :: r in nodes && r != p ==> nodes[r] != node
      requires next !in Repr && next.children == map[] && next.keys == KeysThrough(entries, q)
          && next.terminals == KeysAt(entries, q)
      modifies this`nodes, this`kids, this`Repr, node`children
      ensures nodes == old(nodes)[q := next] && kids == old(kids)[p := old(kids)[p][identity := next]][q := map[]]
      ensures Repr == old(Repr) + {next}
      ensures Closed() && forall r :: r in nodes ==> NodeValid(r)
    {
      hide KeysThrough, KeysAt;
      assert forall r :: r in nodes ==> nodes[r] != next;
      assert NodeValid(p);
      node.children := node.children[identity := next];
      assert forall r :: r in nodes && r != p ==> NodeValid(r);
      nodes, kids, Repr := nodes[q := next], kids[p := kids[p][identity := next]][q := map[]], Repr + {next};
    }

    /** The body of the preflight for one file key: walks down, collecting conflicts, and records the key. */
    method Insert(key: string, ids: seq<string>) returns (conflicts: set<string>)
      requires Valid()
      modifies this, Repr
      ensures Valid() && fresh(Repr - old(Repr))
      ensures entries == old(entries) + [Entry(key, ids)]
      ensures conflicts == Conflicts(old(entries), ids)
    {
      hide KeysThrough, KeysAt, Shape, Covers;
      var node := root;
      var pathNodes := [node];
      conflicts := {};
      RootIsKnown(nodes, kids);
      assert ids[..0] == [];
      for k := 0 to |ids|
        invariant Valid() && fresh(Repr - old(Repr)) && entries == old(entries)
        invariant OnPath(nodes, ids, k, pathNodes) && node == nodes[ids[..k]]
        invariant conflicts == ConflictsAbove(entries, ids, k)
      {
        assert NodeValid(ids[..k]);
        TerminalsConflict(entries, ids, k);
        conflicts := conflicts + set x | x in node.terminals;
        node := Descend(node, ids[k], ids[..k]);
        assert ids[..k] + [ids[k]] == ids[..k + 1];
        pathNodes := pathNodes + [node];
      }
      assert ids[..|ids|] == ids;
      assert NodeValid(ids);
      KeysConflict(entries, ids);
      conflicts := conflicts + set x | x in node.keys;
      Record(key, ids, node, pathNodes);
    }

    /** Records a key at its final node and along its path. */
    method Record(key: string, ids: seq<string>, node: TrieNode, pathNodes: seq<TrieNode>)
      requires Valid() && OnPath(nodes, ids, |ids|, pathNodes) && node == nodes[ids[..|ids|]]
      modifies this`entries, Repr
      ensures Valid() && entries == old(entries) + [Entry(key, ids)]
    {
      hide KeysThrough, KeysAt, Shape, Covers, Marked;
      assert ids[..|ids|] == ids;
      SeparateNodes(nodes, kids, ids);
      forall p {
        MarkedStep(key, ids, p, 0);
      }
      node.terminals := node.terminals + [key];
      for i := 0 to |pathNodes|
        invariant entries == old(entries)
        invariant forall p :: p in nodes ==>
                    && nodes[p].children == kids[p]
                    && nodes[p].terminals == KeysAt(entries, p) + (if p == ids then [key] else [])
                    && nodes[p].keys == KeysThrough(entries, p) + Marked(key, ids, p, i)
      {
        SeparateNodes(nodes, kids, ids[..i]);
        forall p {
          MarkedStep(key, ids, p, i);
        }
        pathNodes[i].keys := pathNodes[i].keys + [key];
      }
      CoversOne(nodes, entries, Entry(key, ids), pathNodes);
      forall p | p in nodes {
        RecordedOne(entries, Entry(key, ids), p);
      }
      entries := entries + [Entry(key, ids)];
    }
  }

  /** What the first `i` nodes of the path have had appended. */
  ghost function Marked(key: string, ids: seq<string>, p: seq<string>, i: nat): seq<string> {
    if p <= ids && |p| < i then [key] else []
  }

  lemma MarkedStep(key: string, ids: seq<string>, p: seq<string>, i: nat)
    requires i <= |ids|
    ensures Marked(key, ids, p, 0) == []
    ensures Marked(key, ids, p, i + 1) == if p == ids[..i] then [key] else Marked(key, ids, p, i)
    ensures p == ids[..i] ==> Marked(key, ids, p, i) == []
  {
  }

  /** The nodes met on the way down. */
  ghost predicate OnPath(nodes: map<seq<string>, TrieNode>, ids: seq<string>, k: nat, pathNodes: seq<TrieNode>) {
    k <= |ids| && |pathNodes| == k + 1 && forall j :: 0 <= j <= k ==>
        ids[..j] in nodes && pathNodes[j] == nodes[ids[..j]]
  }

  /** The keys whose destination a new path collides with. */
  ghost function Conflicts(entries: seq<Entry>, ids: seq<string>): set<string> {
    set e | e in entries && Related(e.ids, ids) :: e.key
  }

  /** Those of them which end strictly above depth `k`. */
  ghost function ConflictsAbove(entries: seq<Entry>, ids: seq<string>, k: nat): set<string> {
    set e | e in entries && e.ids <= ids && |e.ids| < k :: e.key
  }

  lemma TerminalsConflict(entries: seq<Entry>, ids: seq<string>, k: nat)
    requires k < |ids|
    ensures ConflictsAbove(entries, ids, k + 1) ==
        ConflictsAbove(entries, ids, k) + set x | x in KeysAt(entries, ids[..k])
  {
    KeysAtMembers(entries, ids[..k]);
    forall e | e in entries ensures e.ids == ids[..k] <==> e.ids <= ids && |e.ids| == k {
    }
  }

  lemma KeysConflict(entries: seq<Entry>, ids: seq<string>)
    ensures Conflicts(entries, ids) == ConflictsAbove(entries, ids, |ids|) + set x | x in KeysThrough(entries, ids)
  {
    KeysThroughMembers(entries, ids);
    forall e | e in entries ensures Related(e.ids, ids) <==> (e.ids <= ids && |e.ids| < |ids|) || ids <= e.ids {
    }
  }

  lemma RootIsKnown(nodes: map<seq<string>, TrieNode>, kids: Kids)
    requires Shape(nodes, kids)
    ensures [] in nodes
  {
  }

  lemma CoversOne(nodes: map<seq<string>, TrieNode>, entries: seq<Entry>, e: Entry, pathNodes: seq<TrieNode>)
    requires Covers(nodes, entries) && OnPath(nodes, e.ids, |e.ids|, pathNodes)
    ensures Covers(nodes, entries + [e])
  {
  }

  lemma RecordedOne(entries: seq<Entry>, e: Entry, p: seq<string>)
    ensures KeysThrough(entries + [e], p) == KeysThrough(entries, p) + Marked(e.key, e.ids, p, |e.ids| + 1)
    ensures KeysAt(entries + [e], p) == KeysAt(entries, p) + if p == e.ids then [e.key] else []
  {
    assert (entries + [e])[..|entries|] == entries;
  }

  lemma ChildIsKnown(nodes: map<seq<string>, TrieNode>, kids: Kids, p: seq<string>, identity: string)
    requires Shape(nodes, kids) && p in nodes
    ensures p in kids && (identity in kids[p] <==> p + [identity] in nodes)
    ensures identity in kids[p] ==> kids[p][identity] == nodes[p + [identity]]
  {
  }

  lemma SeparateNodes(nodes: map<seq<string>, TrieNode>, kids: Kids, p: seq<string>)
    requires Shape(nodes, kids) && p in nodes
    ensures forall q :: q in nodes && q != p ==> nodes[q] != nodes[p]
  {
  }

  lemma CoversGrows(nodes: map<seq<string>, TrieNode>, entries: seq<Entry>, q: seq<string>, next: TrieNode)
    requires Covers(nodes, entries)
    ensures Covers(nodes[q := next], entries)
  {
  }

  // ---------------------------------------------------------------- the preflight

  /** One listed object. */
  datatype Object = Object(key: string, size: nat)

  datatype Reason = Unsafe(error: KeyError) | NonEmptyMarker | NamespaceConflict

  function Identities(unicode: Unicode, components: seq<string>): (ids: seq<string>)
    ensures |ids| == |components| && forall i :: 0 <= i < |ids| ==> ids[i] == unicode.identity(components[i])
  {
    seq(|components|, i requires 0 <= i < |components| => unicode.identity(components[i]))
  }

  /** A file key, which is to be downloaded. */
  predicate IsQueued(unicode: Unicode, o: Object) {
    ValidateKey(unicode, o.key).Ok? && !ValidateKey(unicode, o.key).value.1
  }

  function IdsOf(unicode: Unicode, o: Object): seq<string> {
    match ValidateKey(unicode, o.key)
    case Ok((components, _)) => Identities(unicode, components)
    case Err(_) => []
  }

  /** Rejected without regard to the other objects. */
  predicate RejectedAlone(unicode: Unicode, o: Object) {
    match ValidateKey(unicode, o.key)
    case Err(_) => true
    case Ok((_, isMarker)) => isMarker && o.size != 0
  }

  predicate Clash(unicode: Unicode, o: Object, other: Object) {
    IsQueued(unicode, o) && IsQueued(unicode, other) && Related(IdsOf(unicode, o), IdsOf(unicode, other))
  }

  /** The specification: a key fails by itself, or because it clashes with another listed object. */
  ghost predicate Fails(unicode: Unicode, listing: multiset<Object>, key: string) {
    exists o :: o in listing && o.key == key
      && (RejectedAlone(unicode, o) || exists other :: multiset{o, other} <= listing && Clash(unicode, o, other))
  }

  function ReasonFor(unicode: Unicode, key: string): Reason {
    match ValidateKey(unicode, key)
    case Err(error) => Unsafe(error)
    case Ok((_, isMarker)) => if isMarker then NonEmptyMarker else NamespaceConflict
  }

  ghost predicate ErrorsAre(unicode: Unicode, listing: multiset<Object>, errors: map<string, Reason>) {
    && (forall key :: key in errors <==> Fails(unicode, listing, key))
    && forall key :: key in errors ==> errors[key] == ReasonFor(unicode, key)
  }

  function QueueOf(unicode: Unicode, objects: seq<Object>): seq<Object> {
    if objects == [] then []
    else
      var last := objects[|objects| - 1];
      QueueOf(unicode, objects[..|objects| - 1]) + if IsQueued(unicode, last) then [last] else []
  }

  function MarkersOf(unicode: Unicode, objects: seq<Object>): seq<string> {
    if objects == [] then []
    else
      var last := objects[|objects| - 1];
      MarkersOf(unicode, objects[..|objects| - 1])
      + if ValidateKey(unicode, last.key).Ok? && ValidateKey(unicode, last.key).value.1 && last.size == 0 then
          [last.key] else []
  }

  function EntryOf(unicode: Unicode, o: Object): Entry {
    Entry(o.key, IdsOf(unicode, o))
  }

  function EntriesOf(unicode: Unicode, queue: seq<Object>): (entries: seq<Entry>)
    ensures |entries| == |queue| && forall i :: 0 <= i < |queue| ==> entries[i] == EntryOf(unicode, queue[i])
  {
    seq(|queue|, i requires 0 <= i < |queue| => EntryOf(unicode, queue[i]))
  }

  lemma {:induction false} QueueMembers(unicode: Unicode, objects: seq<Object>)
    ensures forall o :: o in QueueOf(unicode, objects) <==> o in objects && IsQueued(unicode, o)
  {
    if objects == [] {
    } else {
      QueueMembers(unicode, objects[..|objects| - 1]);
      assert objects == objects[..|objects| - 1] + [objects[|objects| - 1]];
    }
  }

  /** A clash with the earlier objects is what the trie reports. */
  lemma ConflictsAreClashes(unicode: Unicode, objects: seq<Object>, o: Object)
    requires IsQueued(unicode, o)
    ensures Conflicts(EntriesOf(unicode, QueueOf(unicode, objects)), IdsOf(unicode, o))
         == set other | other in objects && Clash(unicode, o, other) :: other.key
  {
    hide IdsOf, IsQueued;
    var queue := QueueOf(unicode, objects);
    var entries := EntriesOf(unicode, queue);
    var conflicts := Conflicts(entries, IdsOf(unicode, o));
    QueueMembers(unicode, objects);
    forall key | key in conflicts
        ensures exists other :: other in objects && Clash(unicode, o, other) && other.key == key {
      var e :| e in entries && Related(e.ids, IdsOf(unicode, o)) && e.key == key;
      var i :| 0 <= i < |entries| && entries[i] == e;
      assert queue[i] in queue;
      assert Clash(unicode, o, queue[i]);
    }
    forall other | other in objects && Clash(unicode, o, other) ensures other.key in conflicts {
      assert other in queue;
      var i :| 0 <= i < |queue| && queue[i] == other;
      assert entries[i] in entries;
    }
  }

  lemma PairIn(listing: multiset<Object>, o: Object, x: Object, y: Object)
    ensures multiset{x, y} <= listing + multiset{o} <==>
            multiset{x, y} <= listing || (x == o && y in listing) || (y == o && x in listing)
  {
    var more := listing + multiset{o};
    if multiset{x, y} <= more {
      if x == y {
        assert multiset{x, y}[x] == 2;
      } else {
        assert multiset{x, y}[x] == 1 && multiset{x, y}[y] == 1;
        assert x in more && y in more;
      }
    }
  }

  /** One more object adds its own failure and those of the pairs it is part of. */
  lemma FailsGrows(unicode: Unicode, listing: multiset<Object>, o: Object, key: string)
    ensures Fails(unicode, listing + multiset{o}, key) <==>
            || Fails(unicode, listing, key)
            || (key == o.key && RejectedAlone(unicode, o))
            || exists other :: other in listing && Clash(unicode, o, other) && (key == o.key || key == other.key)
  {
    hide RejectedAlone, IsQueued, IdsOf;
    var more := listing + multiset{o};
    if Fails(unicode, more, key) {
      var x :| x in more && x.key == key
            && (RejectedAlone(unicode, x) || exists other :: multiset{x, other} <= more && Clash(unicode, x, other));
      assert x in listing || x == o;
      if !RejectedAlone(unicode, x) {
        var y :| multiset{x, y} <= more && Clash(unicode, x, y);
        PairIn(listing, o, x, y);
        PairHas(listing, x, y);
        assert Clash(unicode, y, x);
      }
    }
    if other :| other in listing && Clash(unicode, o, other) && (key == o.key || key == other.key) {
      PairIn(listing, o, o, other);
      PairIn(listing, o, other, o);
      assert Clash(unicode, other, o);
      assert o in more && other in more;
    }
    if Fails(unicode, listing, key) {
      FailsIsMonotone(unicode, listing, more, key);
    }
  }

  lemma PairHas(listing: multiset<Object>, x: Object, y: Object)
    ensures multiset{x, y} <= listing ==> x in listing && y in listing
  {
    assert x in multiset{x, y} && y in multiset{x, y};
  }

  /** Adding objects never clears an error. */
  lemma FailsIsMonotone(unicode: Unicode, listing: multiset<Object>, more: multiset<Object>, key: string)
    requires listing <= more && Fails(unicode, listing, key)
    ensures Fails(unicode, more, key)
  {
    var o :| o in listing && o.key == key
          && (RejectedAlone(unicode, o) || exists other :: multiset{o, other} <= listing && Clash(unicode, o, other));
    if !RejectedAlone(unicode, o) {
      var other :| multiset{o, other} <= listing && Clash(unicode, o, other);
      assert multiset{o, other} <= more;
    }
  }

  /** What one object does to the error map. */
  ghost function NextErrors(unicode: Unicode, objects: seq<Object>, o: Object, errors: map<string, Reason>): map<string,
      Reason> {
    if RejectedAlone(unicode, o) then errors[o.key := ReasonFor(unicode, o.key)]
    else
      var clashing := set other | other in objects && Clash(unicode, o, other) :: other.key;
      if clashing == {} then errors
      else (errors + map c | c in clashing :: NamespaceConflict)[o.key := NamespaceConflict]
  }

  lemma ErrorsGrow(unicode: Unicode, objects: seq<Object>, o: Object, errors: map<string, Reason>)
    requires ErrorsAre(unicode, multiset(objects), errors)
    ensures ErrorsAre(unicode, multiset(objects + [o]), NextErrors(unicode, objects, o, errors))
  {
    hide Fails, RejectedAlone, Clash, ReasonFor;
    var next := NextErrors(unicode, objects, o, errors);
    assert multiset(objects + [o]) == multiset(objects) + multiset{o};
    forall other | Clash(unicode, o, other) {
      ClashReason(unicode, o, other);
    }
    var clashing := set other | other in objects && Clash(unicode, o, other) :: other.key;
    forall other | other in multiset(objects) && Clash(unicode, o, other) ensures other.key in clashing {
    }
    forall key ensures key in next <==> Fails(unicode, multiset(objects + [o]), key) {
      FailsGrows(unicode, multiset(objects), o, key);
    }
  }

  lemma ClashReason(unicode: Unicode, o: Object, other: Object)
    requires Clash(unicode, o, other)
    ensures !RejectedAlone(unicode, o)
    ensures ReasonFor(unicode, o.key) == NamespaceConflict == ReasonFor(unicode, other.key)
  {
  }

  lemma NothingFails(unicode: Unicode)
    ensures ErrorsAre(unicode, multiset([]), map[])
  {
  }

  lemma Classified(unicode: Unicode, o: Object)
    ensures !IsQueued(unicode, o) ==> forall other :: !Clash(unicode, o, other)
    ensures ValidateKey(unicode, o.key).Ok? ==>
        IdsOf(unicode, o) == Identities(unicode, ValidateKey(unicode, o.key).value.0)
  {
  }

  lemma EmptyListing(unicode: Unicode)
    ensures QueueOf(unicode, []) == [] && MarkersOf(unicode, []) == []
  {
  }

  lemma ListOne(unicode: Unicode, objects: seq<Object>, o: Object)
    ensures QueueOf(unicode, objects + [o]) == QueueOf(unicode, objects) + if IsQueued(unicode, o) then [o] else []
    ensures var validated := ValidateKey(unicode, o.key);
            MarkersOf(unicode, objects + [o])
            == MarkersOf(unicode, objects) + if validated.Ok? && validated.value.1 && o.size == 0 then [o.key] else []
  {
    assert (objects + [o])[..|objects|] == objects;
  }

  /** The loop body: `objects` are those already classified. */
  method PreflightOne(unicode: Unicode, ghost objects: seq<Object>, o: Object, trie: Trie,
      queue0: seq<Object>, markers0: seq<string>, errors0: map<string, Reason>)
    returns (queue: seq<Object>, markers: seq<string>, errors: map<string, Reason>)
    requires trie.Valid() && trie.entries == EntriesOf(unicode, QueueOf(unicode, objects))
    requires queue0 == QueueOf(unicode, objects) && markers0 == MarkersOf(unicode, objects)
    modifies trie, trie.Repr
    ensures trie.Valid() && fresh(trie.Repr - old(trie.Repr))
    ensures queue == QueueOf(unicode, objects + [o]) && markers == MarkersOf(unicode, objects + [o])
    ensures trie.entries == EntriesOf(unicode, queue)
    ensures errors == NextErrors(unicode, objects, o, errors0)
  {
    hide ValidateKey, Conflicts, QueueOf, MarkersOf, Related, Trie.Valid, Clash, IdsOf;
    queue, markers, errors := queue0, markers0, errors0;
    ListOne(unicode, objects, o);
    Classified(unicode, o);
    var validated := ValidateKey(unicode, o.key);
    if validated.Err? {
      errors := errors[o.key := Unsafe(validated.error)];
      return;
    }
    var (components, isMarker) := validated.value;
    if isMarker {
      if o.size == 0 {
        markers := markers + [o.key];
      } else {
        errors := errors[o.key := NonEmptyMarker];
      }
      return;
    }
    ConflictsAreClashes(unicode, objects, o);
    var conflicts := trie.Insert(o.key, Identities(unicode, components));
    if conflicts != {} {
      errors := errors + map c | c in conflicts :: NamespaceConflict;
      errors := errors[o.key := NamespaceConflict];
    }
    queue := queue + [o];
    assert EntriesOf(unicode, queue) == EntriesOf(unicode, queue0) + [EntryOf(unicode, o)];
  }

  /** Classifies a listing.  The trie finds exactly the clashes a pairwise comparison would. */
  method PreflightDownloadObjects(unicode: Unicode, objects: seq<Object>)
    returns (queue: seq<Object>, markers: seq<string>, errors: map<string, Reason>)
    ensures queue == QueueOf(unicode, objects) && markers == MarkersOf(unicode, objects)
    ensures ErrorsAre(unicode, multiset(objects), errors)
  {
    hide ErrorsAre, NextErrors, QueueOf, MarkersOf, Trie.Valid;
    assert QueueOf(unicode, []) == [] && MarkersOf(unicode, []) == [] by { EmptyListing(unicode); }
    queue, markers, errors := [], [], map[];
    var trie := new Trie();
    assert ErrorsAre(unicode, multiset(objects[..0]), errors) by { NothingFails(unicode); }
    for i := 0 to |objects|
      invariant trie.Valid() && fresh(trie) && fresh(trie.Repr)
      invariant queue == QueueOf(unicode, objects[..i]) && markers == MarkersOf(unicode, objects[..i])
      invariant trie.entries == EntriesOf(unicode, queue)
      invariant ErrorsAre(unicode, multiset(objects[..i]), errors)
    {
      var o := objects[i];
      assert objects[..i + 1][..i] == objects[..i] && objects[..i + 1] == objects[..i] + [o];
      ErrorsGrow(unicode, objects[..i], o, errors);
      queue, markers, errors := PreflightOne(unicode, objects[..i], o, trie, queue, markers, errors);
    }
    assert objects[..|objects|] == objects;
  }

  // ---------------------------------------------------------------- what the preflight means

  lemma MultisetAt(objects: seq<Object>, i: nat)
    requires i < |objects|
    ensures multiset(objects) == multiset{objects[i]} + multiset(objects[..i] + objects[i + 1..])
  {
    assert objects == objects[..i] + [objects[i]] + objects[i + 1..];
  }

  /** Two elements at different positions, as a sub-multiset. */
  lemma PairAtPositions(objects: seq<Object>, x: Object, y: Object)
    ensures multiset{x, y} <= multiset(objects) <==>
            exists i, j :: 0 <= i < |objects| && 0 <= j < |objects| && i != j && objects[i] == x && objects[j] == y
  {
    if multiset{x, y} <= multiset(objects) {
      var i, j := FindPair(objects, x, y);
    }
    if i, j :| 0 <= i < |objects| && 0 <= j < |objects| && i != j && objects[i] == x && objects[j] == y {
      PairPresent(objects, i, j);
    }
  }

  lemma FindPair(objects: seq<Object>, x: Object, y: Object) returns (i: nat, j: nat)
    requires multiset{x, y} <= multiset(objects)
    ensures i < |objects| && j < |objects| && i != j && objects[i] == x && objects[j] == y
  {
    PairHas(multiset(objects), x, y);
    i :| 0 <= i < |objects| && objects[i] == x;
    MultisetAt(objects, i);
    var rest := objects[..i] + objects[i + 1..];
    assert multiset(objects)[y] == multiset{x}[y] + multiset(rest)[y];
    assert multiset{x, y}[y] == multiset{x}[y] + 1;
    assert y in multiset(rest);
    var k :| 0 <= k < |rest| && rest[k] == y;
    j := if k < i then k else k + 1;
  }

  lemma PairPresent(objects: seq<Object>, i: nat, j: nat)
    requires i < |objects| && j < |objects| && i != j
    ensures multiset{objects[i], objects[j]} <= multiset(objects)
  {
    MultisetAt(objects, i);
    var rest := objects[..i] + objects[i + 1..];
    assert rest[if j < i then j else j - 1] == objects[j];
    assert objects[j] in multiset(rest);
  }

  /** The trie agrees with the quadratic test: a file key is marked exactly when some other listed file
      key has an identity path which equals its own, is a prefix of it, or extends it. */
  lemma MarkedExactlyWhenRelated(unicode: Unicode, objects: seq<Object>, errors: map<string, Reason>, key: string)
    requires ErrorsAre(unicode, multiset(objects), errors)
    requires IsQueued(unicode, Object(key, 0))
    ensures (key in errors && errors[key] == NamespaceConflict) <==>
            exists i, j :: 0 <= i < |objects| && 0 <= j < |objects| && i != j
              && objects[i].key == key && IsQueued(unicode, objects[j])
              && Related(IdsOf(unicode, objects[i]), IdsOf(unicode, objects[j]))
  {
    hide ValidateKey;
    forall o: Object | o.key == key
        ensures IsQueued(unicode, o) && !RejectedAlone(unicode, o) && ReasonFor(unicode, key) == NamespaceConflict {
      SameKeySameClass(unicode, o, Object(key, 0));
    }
    if Fails(unicode, multiset(objects), key) {
      var o :| o in multiset(objects) && o.key == key
            && (RejectedAlone(unicode, o)
                || exists other :: multiset{o, other} <= multiset(objects) && Clash(unicode, o, other));
      var other :| multiset{o, other} <= multiset(objects) && Clash(unicode, o, other);
      PairAtPositions(objects, o, other);
    }
    if i, j :| 0 <= i < |objects| && 0 <= j < |objects| && i != j && objects[i].key == key
               && IsQueued(unicode, objects[j]) && Related(IdsOf(unicode, objects[i]), IdsOf(unicode, objects[j])) {
      PairAtPositions(objects, objects[i], objects[j]);
      assert Clash(unicode, objects[i], objects[j]);
      assert objects[i] in multiset(objects);
    }
  }

  lemma SameKeySameClass(unicode: Unicode, o: Object, p: Object)
    requires o.key == p.key
    ensures IsQueued(unicode, o) == IsQueued(unicode, p)
    ensures IsQueued(unicode, o) ==> !RejectedAlone(unicode, o) && ReasonFor(unicode, o.key) == NamespaceConflict
  {
  }

  /** The error map is a function of the listing as a multiset: it depends on no order. */
  lemma OrderIsIrrelevant(unicode: Unicode, objects: seq<Object>, permuted: seq<Object>,
      errors: map<string, Reason>, errors': map<string, Reason>)
    requires multiset(objects) == multiset(permuted)
    requires ErrorsAre(unicode, multiset(objects), errors) && ErrorsAre(unicode, multiset(permuted), errors')
    ensures errors == errors'
    ensures multiset(QueueOf(unicode, objects)) == multiset(QueueOf(unicode, permuted))
  {
    hide Fails, IsQueued;
    assert forall key: string :: key in errors <==> key in errors';
    forall o: Object ensures multiset(QueueOf(unicode, objects))[o] == multiset(QueueOf(unicode, permuted))[o] {
      QueueCount(unicode, objects, o);
      QueueCount(unicode, permuted, o);
    }
  }

  lemma {:induction false} QueueCount(unicode: Unicode, objects: seq<Object>, o: Object)
    ensures multiset(QueueOf(unicode, objects))[o] == if IsQueued(unicode, o) then multiset(objects)[o] else 0
  {
    hide IsQueued;
    if objects == [] {
    } else {
      var init, last := objects[..|objects| - 1], objects[|objects| - 1];
      QueueCount(unicode, init, o);
      assert objects == init + [last];
      assert multiset(objects) == multiset(init) + multiset{last};
    }
  }

  /** More objects only ever add errors; the reason of a key never changes. */
  lemma ErrorsAreMonotone(unicode: Unicode, objects: seq<Object>, more: seq<Object>,
      errors: map<string, Reason>, errors': map<string, Reason>)
    requires multiset(objects) <= multiset(more)
    requires ErrorsAre(unicode, multiset(objects), errors) && ErrorsAre(unicode, multiset(more), errors')
    ensures forall key :: key in errors ==> key in errors' && errors'[key] == errors[key]
  {
    hide Fails;
    forall key | key in errors ensures key in errors' {
      FailsIsMonotone(unicode, multiset(objects), multiset(more), key);
    }
  }

  lemma ClashFails(unicode: Unicode, listing: multiset<Object>, o: Object, other: Object)
    requires multiset{o, other} <= listing && Clash(unicode, o, other)
    ensures Fails(unicode, listing, o.key)
  {
    PairHas(listing, o, other);
  }

  lemma QueueHolds(unicode: Unicode, objects: seq<Object>, x: Object, y: Object)
    requires IsQueued(unicode, x) && IsQueued(unicode, y)
    ensures multiset{x, y} <= multiset(QueueOf(unicode, objects)) <==> multiset{x, y} <= multiset(objects)
  {
    hide IsQueued;
    QueueCount(unicode, objects, x);
    QueueCount(unicode, objects, y);
  }

  /** No key is in conflict exactly when the identity paths of the queue are pairwise unrelated. */
  lemma NoConflictExactlyWhenUnrelated(unicode: Unicode, objects: seq<Object>, errors: map<string, Reason>)
    requires ErrorsAre(unicode, multiset(objects), errors)
    ensures var queue := QueueOf(unicode, objects);
            && (forall i :: 0 <= i < |queue| ==> IsQueued(unicode, queue[i]))
            && ((forall key :: key in errors ==> errors[key] != NamespaceConflict) <==>
                forall i, j :: 0 <= i < |queue| && 0 <= j < |queue| && i != j ==>
                  !Related(IdsOf(unicode, queue[i]), IdsOf(unicode, queue[j])))
  {
    hide IsQueued, IdsOf, Related, QueueOf, ErrorsAre;
    var queue := QueueOf(unicode, objects);
    QueueMembers(unicode, objects);
    forall i | 0 <= i < |queue| ensures IsQueued(unicode, queue[i]) {
      assert queue[i] in queue;
    }
    forall i, j | 0 <= i < |queue| && 0 <= j < |queue| && i != j
                  && Related(IdsOf(unicode, queue[i]), IdsOf(unicode, queue[j]))
      ensures queue[i].key in errors && errors[queue[i].key] == NamespaceConflict
    {
      RelatedIsConflict(unicode, objects, errors, i, j);
    }
    forall key | key in errors && errors[key] == NamespaceConflict
      ensures exists i, j ::
                && 0 <= i < |queue| && 0 <= j < |queue| && i != j
                && Related(IdsOf(unicode, queue[i]), IdsOf(unicode, queue[j]))
    {
      var i, j := ConflictIsRelated(unicode, objects, errors, key);
    }
  }

  lemma RelatedIsConflict(unicode: Unicode, objects: seq<Object>, errors: map<string, Reason>, i: nat, j: nat)
    requires ErrorsAre(unicode, multiset(objects), errors)
    requires var queue := QueueOf(unicode, objects);
             && i < |queue| && j < |queue| && i != j && IsQueued(unicode, queue[i]) && IsQueued(unicode, queue[j])
             && Related(IdsOf(unicode, queue[i]), IdsOf(unicode, queue[j]))
    ensures var key := QueueOf(unicode, objects)[i].key; key in errors && errors[key] == NamespaceConflict
  {
    hide IsQueued, IdsOf, Related, RejectedAlone, ReasonFor, QueueOf;
    var queue := QueueOf(unicode, objects);
    PairAtPositions(queue, queue[i], queue[j]);
    QueueHolds(unicode, objects, queue[i], queue[j]);
    assert Clash(unicode, queue[i], queue[j]);
    ClashFails(unicode, multiset(objects), queue[i], queue[j]);
    ClashReason(unicode, queue[i], queue[j]);
  }

  lemma ConflictIsRelated(unicode: Unicode, objects: seq<Object>, errors: map<string, Reason>, key: string)
    returns (i: nat, j: nat)
    requires ErrorsAre(unicode, multiset(objects), errors) && key in errors && errors[key] == NamespaceConflict
    ensures var queue := QueueOf(unicode, objects);
            && i < |queue| && j < |queue| && i != j
            && Related(IdsOf(unicode, queue[i]), IdsOf(unicode, queue[j]))
  {
    hide IsQueued, IdsOf, Related, RejectedAlone, ReasonFor, QueueOf;
    var queue := QueueOf(unicode, objects);
    var o :| o in multiset(objects) && o.key == key
          && (RejectedAlone(unicode, o)
              || exists other :: multiset{o, other} <= multiset(objects) && Clash(unicode, o, other));
    ConflictIsNoRejection(unicode, o);
    var other :| multiset{o, other} <= multiset(objects) && Clash(unicode, o, other);
    QueueHolds(unicode, objects, o, other);
    PairAtPositions(queue, o, other);
    i, j :| i < |queue| && j < |queue| && i != j && queue[i] == o && queue[j] == other;
  }

  lemma ConflictIsNoRejection(unicode: Unicode, o: Object)
    ensures ReasonFor(unicode, o.key) == NamespaceConflict ==> !RejectedAlone(unicode, o)
  {
  }

  /** A clean preflight leaves a queue whose identity paths are pairwise unrelated. */
  lemma CleanQueueIsUnrelated(unicode: Unicode, objects: seq<Object>)
    requires ErrorsAre(unicode, multiset(objects), map[])
    ensures var queue := QueueOf(unicode, objects);
            && (forall i :: 0 <= i < |queue| ==> IsQueued(unicode, queue[i]))
            && forall i, j :: 0 <= i < |queue| && 0 <= j < |queue| && i != j ==>
                 !Related(IdsOf(unicode, queue[i]), IdsOf(unicode, queue[j]))
  {
    NoConflictExactlyWhenUnrelated(unicode, objects, map[]);
  }

  // ---------------------------------------------------------------- what becomes of every object

  /** The queue is the listed file keys, in the order of the listing. */
  lemma {:induction false} QueueIsFilter(unicode: Unicode, objects: seq<Object>)
    ensures QueueOf(unicode, objects) ==
            Filter((o: Object) => ValidateKey(unicode, o.key).Ok? && !ValidateKey(unicode, o.key).value.1, objects)
  {
    hide ValidateKey;
    if objects == [] {
    } else {
      QueueIsFilter(unicode, objects[..|objects| - 1]);
    }
  }

  /** The markers are the listed keys with a trailing slash and no content, in the order of the listing. */
  lemma {:induction false} MarkersAreFilter(unicode: Unicode, objects: seq<Object>)
    ensures MarkersOf(unicode, objects) ==
            Map((o: Object) => o.key,
                Filter((o: Object) => ValidateKey(unicode, o.key).Ok? && ValidateKey(unicode, o.key).value.1
                    && o.size == 0,
                       objects))
  {
    hide ValidateKey;
    if objects == [] {
    } else {
      MarkersAreFilter(unicode, objects[..|objects| - 1]);
    }
  }

  ghost predicate Listed(objects: seq<Object>, key: string) {
    exists o :: o in objects && o.key == key
  }

  ghost predicate ListedEmpty(objects: seq<Object>, key: string) {
    exists o :: o in objects && o.key == key && o.size == 0
  }

  ghost predicate ListedNonEmpty(objects: seq<Object>, key: string) {
    exists o :: o in objects && o.key == key && o.size != 0
  }

  lemma {:induction false} MarkerMembers(unicode: Unicode, objects: seq<Object>, key: string)
    ensures key in MarkersOf(unicode, objects) <==>
            ValidateKey(unicode, key).Ok? && ValidateKey(unicode, key).value.1 && ListedEmpty(objects, key)
  {
    hide ValidateKey;
    if objects == [] {
    } else {
      var init, last := objects[..|objects| - 1], objects[|objects| - 1];
      MarkerMembers(unicode, init, key);
      assert objects == init + [last];
      assert ListedEmpty(objects, key) <==> ListedEmpty(init, key) || (last.key == key && last.size == 0);
    }
  }

  /** A rejected key is in error for its own reason; a folder marker is in error exactly when an object of that key has
      content, and is listed as a marker exactly when one has none; a file key can only be in conflict; and every object
      is queued, listed as a marker, or in error. */
  lemma PreflightMeans(unicode: Unicode, objects: seq<Object>, errors: map<string, Reason>)
    requires ErrorsAre(unicode, multiset(objects), errors)
    ensures forall key :: ValidateKey(unicode, key).Err? ==>
              && (key in errors <==> Listed(objects, key))
              && (key in errors ==> errors[key] == Unsafe(ValidateKey(unicode, key).error))
    ensures forall key :: ValidateKey(unicode, key).Ok? && ValidateKey(unicode, key).value.1 ==>
              && (key in errors <==> ListedNonEmpty(objects, key))
              && (key in errors ==> errors[key] == NonEmptyMarker)
              && (key in MarkersOf(unicode, objects) <==> ListedEmpty(objects, key))
    ensures forall key :: ValidateKey(unicode, key).Ok? && !ValidateKey(unicode, key).value.1 && key in errors ==>
              errors[key] == NamespaceConflict
    ensures forall o :: o in objects ==>
              o in QueueOf(unicode, objects) || o.key in MarkersOf(unicode, objects) || o.key in errors
  {
    hide ValidateKey, QueueOf, MarkersOf;
    QueueMembers(unicode, objects);
    assert forall o :: o in multiset(objects) <==> o in objects;
    forall key ensures key in MarkersOf(unicode, objects) <==>
        ValidateKey(unicode, key).Ok? && ValidateKey(unicode, key).value.1 && ListedEmpty(objects, key)
    {
      MarkerMembers(unicode, objects, key);
    }
    forall key | key in errors && ValidateKey(unicode, key).Ok? && ValidateKey(unicode, key).value.1
      ensures ListedNonEmpty(objects, key)
    {
      assert Fails(unicode, multiset(objects), key);
    }
    forall key | ValidateKey(unicode, key).Ok? && ValidateKey(unicode, key).value.1 && ListedNonEmpty(objects, key)
      ensures key in errors
    {
      var o :| o in objects && o.key == key && o.size != 0;
      assert o in multiset(objects) && RejectedAlone(unicode, o);
      assert Fails(unicode, multiset(objects), key);
    }
    forall key | ValidateKey(unicode, key).Err? ensures key in errors <==> Listed(objects, key) {
      if Listed(objects, key) {
        var o :| o in objects && o.key == key;
        assert o in multiset(objects) && RejectedAlone(unicode, o);
        assert Fails(unicode, multiset(objects), key);
      }
      if key in errors {
        assert Fails(unicode, multiset(objects), key);
      }
    }
  }
}
