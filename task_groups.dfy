/** Task groups (`server/task-groups.js`, and the older copy `task-groups.js`
    at the top of the repository): named lists of title matchers that the
    statistics count by, kept in the module's `groups` array. */
module TaskGroups {
  import opened Model
  import opened Objects
  import opened Utils

  datatype Group = Group(name: string, matchers: seq<string>)

  function GroupName(g: Group): string { g.name }

  /** The groups after the `/update` route: a group with a new name goes last,
      otherwise it takes the place of the first group with that name. */
  function Upserted(gs: seq<Group>, body: Group): seq<Group> {
    if IndexOfKey(gs, GroupName, body.name) == -1 then gs + [body]
    else ReplaceFirst(gs, GroupName, body.name, body)
  }

  /** The object the statistics route builds with `matchers[group.name] =
      group.matchers`, one group after the other. */
  function MatcherMap(gs: seq<Group>): seq<Slot<seq<string>>> {
    if gs == [] then []
    else
      var last := gs[|gs| - 1];
      Put(MatcherMap(gs[..|gs| - 1]), last.name, last.matchers)
  }

  /** Some matcher of the group matches the title; `matches` stands for
      `timerMatches`, a regular expression test on the timer's title. */
  predicate Matches(g: Group, title: string, matches: (string, string) -> bool) {
    exists k :: 0 <= k < |g.matchers| && matches(g.matchers[k], title)
  }

  /** The groups that match, in the order of `gs`. */
  function Matching(gs: seq<Group>, title: string, matches: (string, string) -> bool): seq<Group> {
    if gs == [] then []
    else
      var last := gs[|gs| - 1];
      Matching(gs[..|gs| - 1], title, matches) + (if Matches(last, title, matches) then [last] else [])
  }

  /** The module's `groups`, as read from the groups save file. */
  class GroupStore {
    var groups: seq<Group>

    constructor (saved: seq<Group>)
      ensures groups == saved
    {
      groups := saved;
    }

    /** The `/update` route; it answers with the whole array. */
    method Update(body: Group) returns (r: seq<Group>)
      modifies this
      ensures groups == Upserted(old(groups), body)
      ensures r == groups
    {
      var groupIndex := IndexOfKey(groups, GroupName, body.name);
      if groupIndex == -1 {
        groups := groups + [body];
      } else {
        groups := groups[groupIndex := body];
      }
      r := groups;
    }

    /** The `/delete` route: `tryDeleteObject(name, groups, 'name')`; it
        answers with the name it was given, whether or not a group had it. */
    method Delete(name: string) returns (deleted: string)
      modifies this
      ensures groups == DeleteFirst(old(groups), GroupName, name)
      ensures deleted == name
    {
      var found, rest := TryDeleteObject(name, groups, GroupName);
      groups := rest;
      deleted := name;
    }

    /** The loop of the statistics route that builds the matcher map. */
    method MatchersByName() returns (m: seq<Slot<seq<string>>>)
      ensures m == MatcherMap(groups)
    {
      m := [];
      var i := 0;
      while i < |groups|
        invariant 0 <= i <= |groups|
        invariant m == MatcherMap(groups[..i])
      {
        var group := groups[i];
        assert groups[..i + 1][..i] == groups[..i];
        m := Put(m, group.name, group.matchers);
        i := i + 1;
      }
      assert groups[..|groups|] == groups;
    }

    /** `matchingGroupsFor(timer)`: for each group, the matchers are tried in
        order and the first one that matches adds the group and moves on to
        the next group. */
    method MatchingGroupsFor(timer: Timer, matches: (string, string) -> bool) returns (r: seq<Group>)
      ensures r == Matching(groups, timer.title, matches)
    {
      r := [];
      var i := 0;
      while i < |groups|
        invariant 0 <= i <= |groups|
        invariant r == Matching(groups[..i], timer.title, matches)
      {
        var group := groups[i];
        var found := false;
        var j := 0;
        while j < |group.matchers| && !found
          invariant 0 <= j <= |group.matchers|
          invariant found <==> exists k :: 0 <= k < j && matches(group.matchers[k], timer.title)
        {
          if matches(group.matchers[j], timer.title) {
            found := true;
          }
          j := j + 1;
        }
        assert found <==> Matches(group, timer.title, matches);
        if found {
          r := r + [group];
        }
        assert groups[..i + 1][..i] == groups[..i];
        i := i + 1;
      }
      assert groups[..|groups|] == groups;
    }
  }

  // ---------------------------------------------------------------------------
  // Properties

  /** After `/update` the body is in the array; a new name adds one group at
      the end, a known name keeps the length, and every other group stays. */
  lemma UpsertedEffect(gs: seq<Group>, body: Group)
    ensures body in Upserted(gs, body)
    ensures !HasKey(gs, GroupName, body.name) ==> Upserted(gs, body) == gs + [body]
    ensures HasKey(gs, GroupName, body.name) ==> |Upserted(gs, body)| == |gs|
    ensures var k := IndexOfKey(gs, GroupName, body.name);
      forall j :: 0 <= j < |gs| && j != k ==> Upserted(gs, body)[j] == gs[j]
    ensures forall j :: 0 <= j < |gs| ==> Upserted(gs, body)[j].name == gs[j].name
  {
    ReplaceFirstEffect(gs, GroupName, body.name, body);
    var k := IndexOfKey(gs, GroupName, body.name);
    if k == -1 {
      assert Upserted(gs, body)[|gs|] == body;
    } else {
      assert Upserted(gs, body)[k] == body;
    }
  }

  /** Sending the same group twice is the same as sending it once. */
  lemma UpsertedTwice(gs: seq<Group>, body: Group)
    ensures Upserted(Upserted(gs, body), body) == Upserted(gs, body)
  {
    var once := Upserted(gs, body);
    var k := IndexOfKey(gs, GroupName, body.name);
    var p := if k == -1 then |gs| else k;
    assert once[p] == body && GroupName(once[p]) == body.name;
    assert forall j :: 0 <= j < p ==> once[j] == gs[j] && GroupName(once[j]) != body.name;
    assert IndexOfKey(once, GroupName, body.name) == p;
  }

  /** Deleting a group that `/update` has just added gives the array back. */
  lemma UpsertThenDelete(gs: seq<Group>, body: Group)
    requires !HasKey(gs, GroupName, body.name)
    ensures DeleteFirst(Upserted(gs, body), GroupName, body.name) == gs
  {
    var t := gs + [body];
    assert GroupName(t[|gs|]) == body.name;
    assert forall i :: 0 <= i < |gs| ==> t[i] == gs[i] && GroupName(gs[i]) != body.name;
    var k := IndexOfKey(t, GroupName, body.name);
    assert k != -1;
    assert k == |gs|;
    assert t[..|gs|] == gs;
  }

  /** The matcher map has one key per group name, and a name that several
      groups share maps to the matchers of the last of them. */
  lemma {:induction false} MatcherMapKeys(gs: seq<Group>, name: string)
    ensures UniqueKeys(MatcherMap(gs))
    ensures Get(MatcherMap(gs), name).Some? <==> HasKey(gs, GroupName, name)
  {
    if gs != [] {
      var n := |gs| - 1;
      var last := gs[n];
      var before := MatcherMap(gs[..n]);
      assert MatcherMap(gs) == Put(before, last.name, last.matchers);
      MatcherMapKeys(gs[..n], name);
      PutKeepsUnique(before, last.name, last.matchers);
      PutGet(before, last.name, last.matchers, name);
      if last.name != name {
        MatcherMapOther(gs, name);
      } else {
        assert GroupName(gs[n]) == name;
      }
    }
  }

  /** A name that several groups share maps to the matchers of the last of them. */
  lemma {:induction false} MatcherMapLastWins(gs: seq<Group>, name: string, i: nat)
    requires i < |gs| && gs[i].name == name
    requires forall j :: i < j < |gs| ==> gs[j].name != name
    ensures Get(MatcherMap(gs), name) == Some(gs[i].matchers)
  {
    var n := |gs| - 1;
    MatcherMapSnoc(gs, name);
    if i == n {
      assert gs[i] == gs[n];
    } else {
      var init := gs[..n];
      assert gs[n].name != name;
      assert init[i] == gs[i];
      assert forall j :: i < j < n ==> init[j] == gs[j];
      MatcherMapLastWins(init, name, i);
    }
  }

  lemma MatcherMapSnoc(gs: seq<Group>, name: string)
    requires gs != []
    ensures var last := gs[|gs| - 1];
      Get(MatcherMap(gs), name) == if last.name == name then Some(last.matchers) else Get(MatcherMap(gs[..|gs| - 1]), name)
  {
    var last := gs[|gs| - 1];
    PutGet(MatcherMap(gs[..|gs| - 1]), last.name, last.matchers, name);
  }

  /** A name other than the last group's is found among the earlier groups. */
  lemma MatcherMapOther(gs: seq<Group>, name: string)
    requires gs != [] && gs[|gs| - 1].name != name
    ensures HasKey(gs, GroupName, name) <==> HasKey(gs[..|gs| - 1], GroupName, name)
    ensures forall i :: 0 <= i < |gs| && gs[i].name == name ==> i < |gs| - 1 && gs[..|gs| - 1][i] == gs[i]
  {
    var n := |gs| - 1;
    if HasKey(gs, GroupName, name) {
      var i :| 0 <= i < |gs| && GroupName(gs[i]) == name;
      assert i < n && GroupName(gs[..n][i]) == name;
    }
    if HasKey(gs[..n], GroupName, name) {
      var i :| 0 <= i < n && GroupName(gs[..n][i]) == name;
      assert GroupName(gs[i]) == name;
    }
  }

  /** `matchingGroupsFor` returns each matching group as often as the array
      holds it, and no other group: a group with two matching matchers is
      still listed once. */
  lemma {:induction false} MatchingCounts(gs: seq<Group>, title: string, matches: (string, string) -> bool, g: Group)
    ensures multiset(Matching(gs, title, matches))[g] == if Matches(g, title, matches) then multiset(gs)[g] else 0
    ensures |Matching(gs, title, matches)| <= |gs|
  {
    if gs != [] {
      var n := |gs| - 1;
      MatchingCounts(gs[..n], title, matches, g);
      assert gs == gs[..n] + [gs[n]];
      assert multiset(gs) == multiset(gs[..n]) + multiset{gs[n]};
    }
  }

  /** A group is returned exactly when it is one of the groups and one of its
      matchers matches the title. */
  lemma MatchingMembers(gs: seq<Group>, title: string, matches: (string, string) -> bool, g: Group)
    ensures g in Matching(gs, title, matches) <==> g in gs && Matches(g, title, matches)
  {
    MatchingCounts(gs, title, matches, g);
    assert g in Matching(gs, title, matches) <==> multiset(Matching(gs, title, matches))[g] > 0;
    assert g in gs <==> multiset(gs)[g] > 0;
  }
}
