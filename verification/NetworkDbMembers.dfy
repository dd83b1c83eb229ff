/** The membership invariant: node states, attachments and member lists fit together. */
module DbMembers {
  import opened NetworkDb

  predicate Listed(w: View, nid: string, name: string) {
    name in Members(w, nid)
  }

  predicate Attached(w: View, nid: string, name: string) {
    Att(name, nid) in w.networks && !w.networks[Att(name, nid)].leaving
  }

  ghost predicate NoDuplicates(names: seq<string>) {
    forall i, j :: 0 <= i < j < |names| ==> names[i] != names[j]
  }

  /** The three node maps are disjoint. */
  ghost predicate StatesOk(w: View) {
    forall n :: !(n in w.nodes && n in w.left) && !(n in w.nodes && n in w.failed) && !(n in w.left && n in w.failed)
  }

  ghost predicate AllOnce(w: View) {
    forall nid :: NoDuplicates(Members(w, nid))
  }

  /** A node is listed once in a network exactly when it is attached to it and not leaving. */
  ghost predicate ListsOk(w: View) {
    (forall nid, name :: Listed(w, nid, name) <==> Attached(w, nid, name)) && AllOnce(w)
  }

  /** Only active nodes, and this node, have attachments. */
  ghost predicate ActiveOk(w: View, self: string) {
    forall a :: a in w.networks ==> a.node == self || a.node in w.nodes
  }

  ghost predicate MemberOk(w: View, self: string) {
    StatesOk(w) && ListsOk(w) && ActiveOk(w, self)
  }

  /** Every remote node listed in a network is active. */
  lemma ListedActive(w: View, self: string, nid: string, name: string)
    requires MemberOk(w, self) && Listed(w, nid, name) && name != self
    ensures name in w.nodes
  {
    assert Attached(w, nid, name);
  }

  // ----- lists ----------------------------------------------------------------

  lemma {:induction false} WithoutOnce(names: seq<string>, name: string)
    requires NoDuplicates(names)
    ensures NoDuplicates(Without(names, name))
  {
    if names != [] {
      var init, last := names[..|names| - 1], names[|names| - 1];
      WithoutOnce(init, name);
      assert last !in init;
      assert Without(names, name) == if last == name then Without(init, name) else Without(init, name) + [last];
    }
  }

  /** The lists of `w'` are those of `w`, but for one name in one list. */
  ghost predicate ListedAs(w: View, w': View, nid: string, name: string, present: bool) {
    && (forall i, n :: Listed(w', i, n) <==> if i == nid && n == name then present else Listed(w, i, n))
    && (AllOnce(w) ==> AllOnce(w'))
  }

  lemma AddMemberLists(w: View, nid: string, name: string)
    ensures ListedAs(w, AddMember(w, nid, name), nid, name, true)
    ensures AddMember(w, nid, name) == w.(members := AddMember(w, nid, name).members)
  {
    var w' := AddMember(w, nid, name);
    forall i
      ensures Members(w', i) ==
              if i == nid && name !in Members(w, nid) then Members(w, nid) + [name] else Members(w, i)
    {
    }
  }

  lemma DropMemberLists(w: View, nid: string, name: string)
    ensures ListedAs(w, DropMember(w, nid, name), nid, name, false)
    ensures DropMember(w, nid, name) == w.(members := DropMember(w, nid, name).members)
  {
    var w' := DropMember(w, nid, name);
    forall i ensures Members(w', i) == if i == nid then Without(Members(w, nid), name) else Members(w, i) {
    }
    hide DropMember, Members;
    if AllOnce(w) {
      WithoutOnce(Members(w, nid), name);
      forall i ensures NoDuplicates(Members(w', i)) {
        assert NoDuplicates(Members(w, i));
      }
    }
  }

  /** The list of a network follows a changed attachment. */
  lemma ListsKept(w: View, w': View, name: string, nid: string, n: Network)
    requires ListsOk(w) && ListedAs(w, w', nid, name, !n.leaving)
    requires w'.networks == w.networks[Att(name, nid) := n]
    ensures ListsOk(w')
  {
    forall i, m ensures Listed(w', i, m) <==> Attached(w', i, m) {
      assert Listed(w, i, m) <==> Attached(w, i, m);
    }
  }

  lemma AttachLists(w: View, a: Att, n: Network, present: bool, w': View)
    requires ListedAs(Attach(w, a, n), w', a.nid, a.node, present)
    ensures ListedAs(w, w', a.nid, a.node, present)
  {
    assert forall i :: Members(Attach(w, a, n), i) == Members(w, i);
    assert forall i, m :: Listed(Attach(w, a, n), i, m) <==> Listed(w, i, m);
  }

  /** An attachment is made or changed, and its node is listed. */
  lemma JoinKeeps(w: View, self: string, a: Att, n: Network)
    requires MemberOk(w, self) && !n.leaving && (a.node == self || a.node in w.nodes)
    ensures MemberOk(AddMember(Attach(w, a, n), a.nid, a.node), self)
  {
    hide ListsOk, AddMember, ListedAs;
    var w1 := Attach(w, a, n);
    AddMemberLists(w1, a.nid, a.node);
    AttachLists(w, a, n, true, AddMember(w1, a.nid, a.node));
    ListsKept(w, AddMember(w1, a.nid, a.node), a.node, a.nid, n);
  }

  /** An attachment is marked leaving, and its node is taken off the list. */
  lemma LeaveKeeps(w: View, self: string, a: Att, n: Network)
    requires MemberOk(w, self) && n.leaving && a in w.networks
    ensures MemberOk(DropMember(Attach(w, a, n), a.nid, a.node), self)
  {
    hide ListsOk, DropMember, ListedAs;
    var w1 := Attach(w, a, n);
    DropMemberLists(w1, a.nid, a.node);
    AttachLists(w, a, n, false, DropMember(w1, a.nid, a.node));
    ListsKept(w, DropMember(w1, a.nid, a.node), a.node, a.nid, n);
  }

  /** Attachments with the same keys and leaving flags. */
  lemma RestampKeeps(w: View, self: string, w': View)
    requires MemberOk(w, self)
    requires w'.nodes == w.nodes && w'.left == w.left && w'.failed == w.failed && w'.members == w.members
    requires w'.networks.Keys == w.networks.Keys
    requires forall a :: a in w.networks ==> w'.networks[a].leaving == w.networks[a].leaving
    ensures MemberOk(w', self)
  {
    assert forall i :: Members(w', i) == Members(w, i);
    forall i, m ensures Listed(w', i, m) <==> Attached(w', i, m) {
      assert Listed(w, i, m) <==> Attached(w, i, m);
    }
    assert AllOnce(w');
  }

  /** Attachments that are leaving may be dropped. */
  lemma ReapKeeps(w: View, self: string, w': View)
    requires MemberOk(w, self)
    requires w'.nodes == w.nodes && w'.left == w.left && w'.failed == w.failed && w'.members == w.members
    requires forall a :: a in w'.networks ==> a in w.networks && w'.networks[a].leaving == w.networks[a].leaving
    requires forall a :: a in w.networks && a !in w'.networks ==> w.networks[a].leaving
    ensures MemberOk(w', self)
  {
    assert forall i :: Members(w', i) == Members(w, i);
    forall i, m ensures Listed(w', i, m) <==> Attached(w', i, m) {
      assert Listed(w, i, m) <==> Attached(w, i, m);
    }
    assert AllOnce(w');
  }

  // ----- node states ----------------------------------------------------------

  lemma DetachLists(w: View, name: string)
    ensures forall i, n :: Listed(Detach(w, name), i, n) <==> Listed(w, i, n) && n != name
    ensures AllOnce(w) ==> AllOnce(Detach(w, name))
  {
    var w' := Detach(w, name);
    forall i ensures Members(w', i) == Without(Members(w, i), name) {
    }
    hide Detach, Members;
    if AllOnce(w) {
      forall i ensures NoDuplicates(Members(w', i)) {
        WithoutOnce(Members(w, i), name);
      }
    }
  }

  /** A node that leaves or fails takes its attachments and listings with it. */
  lemma DetachKeeps(w: View, w1: View, self: string, name: string)
    requires MemberOk(w, self) && StatesOk(w1) && w1.networks == w.networks && w1.members == w.members
    requires forall n :: n in w.nodes && n != name ==> n in w1.nodes
    ensures MemberOk(Detach(w1, name), self)
  {
    var w' := Detach(w1, name);
    DetachLists(w1, name);
    assert forall i :: Members(w1, i) == Members(w, i);
    assert AllOnce(w1);
    forall i, m ensures Listed(w', i, m) <==> Attached(w', i, m) {
      assert Listed(w1, i, m) <==> Listed(w, i, m);
      assert Listed(w, i, m) <==> Attached(w, i, m);
    }
  }

  lemma MoveKeeps(w: View, self: string, name: string, to: NodeState)
    requires MemberOk(w, self) && Find(w, name).Some? && Find(w, name).value.1 != to
    ensures
      var f := Find(w, name).value;
      MemberOk(Move(w, name, f.0, f.1, to), self)
  {
    var f := Find(w, name).value;
    var w1 := Place(Take(w, name, f.1), name, f.0, to);
    if to == Active {
      NodesKeep(w, self, w1);
    } else {
      DetachKeeps(w, w1, self, name);
    }
  }

  /** Only the node maps change, and no active node is lost. */
  lemma NodesKeep(w: View, self: string, w': View)
    requires MemberOk(w, self) && StatesOk(w') && w'.networks == w.networks && w'.members == w.members
    requires forall n :: n in w.nodes ==> n in w'.nodes
    ensures MemberOk(w', self)
  {
    assert forall i :: Members(w', i) == Members(w, i);
    forall i, m ensures Listed(w', i, m) <==> Attached(w', i, m) {
      assert Listed(w, i, m) <==> Attached(w, i, m);
    }
    assert AllOnce(w');
  }
}
