/** The step list of the web scenario form: one request after another. */
module HttpConf {
  import opened Text
  import opened PhpArray
  import opened UniqueSteps

  /** What a request asks for. `other` stands for deleting or cloning the scenario. */
  datatype Request = Request(delSteps: Option<seq<int>>, newStep: Option<Step>, moveUp: Option<int>,
                             moveDown: Option<int>, other: bool, save: bool)

  // ---- The actions on the array ----

  function UnsetAll(es: Steps, sel: seq<int>): Steps {
    if sel == [] then es else Unset(UnsetAll(es, sel[..|sel| - 1]), sel[|sel| - 1])
  }

  /** Exchange the data of two keys; nothing when the second is not set. */
  function Swap(es: Steps, k: int, other: int): Steps
    requires HasKey(es, k)
  {
    if !HasKey(es, other) then es else
      var es' := Assign(es, other, Get(es, k));
      Assign(es', k, Get(es, other))
  }

  /** What an entry holds after an exchange: the other key's data at the two keys, its own elsewhere. */
  function ExchangedAt(es: Steps, k: int, other: int, e: Entry<Step>): Step
    requires HasKey(es, k)
  {
    if !HasKey(es, other) then e.value
    else if e.key == k then Get(es, other)
    else if e.key == other then Get(es, k)
    else e.value
  }

  predicate MovesUp(es: Steps, r: Request) {
    r.delSteps.None? && r.newStep.None? && r.moveUp.Some? && HasKey(es, r.moveUp.value)
  }

  predicate MovesDown(es: Steps, r: Request) {
    r.delSteps.None? && r.newStep.None? && !MovesUp(es, r) && r.moveDown.Some? && HasKey(es, r.moveDown.value)
  }

  function ActOn(es: Steps, r: Request): Steps {
    if r.delSteps.Some? then UnsetAll(es, r.delSteps.value)
    else if r.newStep.Some? then es + [Entry(NextKey(es), r.newStep.value)]
    else if MovesUp(es, r) then Swap(es, r.moveUp.value, r.moveUp.value - 1)
    else if MovesDown(es, r) then Swap(es, r.moveDown.value, r.moveDown.value + 1)
    else es
  }

  /** `$_REQUEST['steps']`, and the lists that were handed to the database. */
  class StepList {
    var steps: Steps
    var saved: seq<seq<Step>>

    ghost predicate Valid()
      reads this
    {
      DistinctKeys(steps)
    }

    constructor (posted: Steps)
      requires DistinctKeys(posted)
      ensures Valid() && steps == posted && saved == []
    {
      steps, saved := posted, [];
    }

    /** Lines 126-130. */
    method Delete(sel: seq<int>)
      requires Valid()
      modifies this`steps
      ensures Valid() && steps == UnsetAll(old(steps), sel)
    {
      for i := 0 to |sel|
        invariant Valid() && steps == UnsetAll(old(steps), sel[..i])
      {
        assert sel[..i + 1][..i] == sel[..i];
        if HasKey(steps, sel[i]) {
          UnsetDistinct(steps, sel[i]);
          steps := Unset(steps, sel[i]);
        } else {
          UnsetAbsent(steps, sel[i]);
        }
      }
      assert sel[..|sel|] == sel;
    }

    /** The form comes back with the list it was sent, perhaps edited. */
    method Receive(posted: Steps)
      requires DistinctKeys(posted)
      modifies this`steps
      ensures Valid() && steps == posted
    {
      steps := posted;
    }

    /** Lines 136-142 and 145-151: the two moves differ in the neighbour. The two keys change their
        data; the other entries and the order stay as they are. */
    method Exchange(k: int, newId: int)
      requires Valid() && HasKey(steps, k) && k != newId
      modifies this`steps
      ensures Valid() && steps == Swap(old(steps), k, newId) && |steps| == |old(steps)|
      ensures forall i :: 0 <= i < |steps| ==> steps[i].key == old(steps)[i].key
      ensures forall i :: 0 <= i < |steps| ==> steps[i].value == ExchangedAt(old(steps), k, newId, old(steps)[i])
    {
      SwapInPlace(steps, k, newId);
      if HasKey(steps, newId) {
        var tmp := Get(steps, newId);
        AssignKeys(steps, newId, Get(steps, k));
        steps := Assign(steps, newId, Get(steps, k));
        AssignKeys(steps, k, tmp);
        steps := Assign(steps, k, tmp);
      }
    }

    /** Lines 294-301: the nested loop. Each foreach walks the list as it was when it started. */
    method MakeUnique()
      requires Valid()
      modifies this`steps
      ensures Valid() && steps == Form(old(steps), |old(steps)|)
    {
      var outer := steps;
      FormStart(outer);
      hide Form, InnerSoFar, Unset, Assign, Get;
      for i := 0 to |outer|
        invariant Valid() && steps == Form(outer, i)
      {
        var s1 := outer[i];
        var inner := steps;
        InnerStart(inner, s1.key, s1.value.name);
        for t := 0 to |inner|
          invariant Valid() && InnerSoFar(steps, inner, t, s1.key, s1.value.name)
        {
          var s2 := inner[t];
          InnerNext(steps, inner, t, s1.key, s1.value.name);
          if s1.value.name == s2.value.name && s1.key != s2.key {
            AssignKeys(steps, s1.key, Get(steps, s2.key));
            steps := Assign(steps, s1.key, Get(steps, s2.key));
            UnsetDistinct(steps, s2.key);
            steps := Unset(steps, s2.key);
          }
        }
        InnerEnd(steps, inner, s1.key, s1.value.name);
        OuterTurn(outer, i);
      }
    }

    /** Lines 126-209: the chain of actions. */
    method Act(r: Request)
      requires Valid()
      modifies this
      ensures Valid() && steps == ActOn(old(steps), r)
      ensures r.save && !r.other && r.delSteps.None? && r.newStep.None?
              && (r.moveUp.Some? ==> !HasKey(old(steps), r.moveUp.value))
              && (r.moveDown.Some? ==> !HasKey(old(steps), r.moveDown.value)) ==>
                saved == old(saved) + [Values(old(steps))]
      ensures !r.save || r.other || r.delSteps.Some? || r.newStep.Some?
              || (r.moveUp.Some? && HasKey(old(steps), r.moveUp.value))
              || (r.moveDown.Some? && HasKey(old(steps), r.moveDown.value)) ==>
                saved == old(saved)
    {
      hide UnsetAll, Swap, Unset, Assign, Get, Values;
      if r.delSteps.Some? {
        Delete(r.delSteps.value);
      } else if r.newStep.Some? {
        steps := steps + [Entry(NextKey(steps), r.newStep.value)];
      } else if r.moveUp.Some? && HasKey(steps, r.moveUp.value) {
        Exchange(r.moveUp.value, r.moveUp.value - 1);
      } else if r.moveDown.Some? && HasKey(steps, r.moveDown.value) {
        Exchange(r.moveDown.value, r.moveDown.value + 1);
      } else if r.other {
      } else if r.save {
        saved := saved + [Values(steps)];
      }
    }

    /** One request: the action, the unique names, and the new keys. */
    method Handle(r: Request)
      requires Valid()
      modifies this
      ensures Valid() && steps == Dense(Unique(Values(ActOn(old(steps), r))))
      ensures r.save && !r.other && r.delSteps.None? && r.newStep.None?
              && (r.moveUp.Some? ==> !HasKey(old(steps), r.moveUp.value))
              && (r.moveDown.Some? ==> !HasKey(old(steps), r.moveDown.value)) ==>
                saved == old(saved) + [Values(old(steps))]
      ensures !r.save || r.other || r.delSteps.Some? || r.newStep.Some?
              || (r.moveUp.Some? && HasKey(old(steps), r.moveUp.value))
              || (r.moveDown.Some? && HasKey(old(steps), r.moveDown.value)) ==>
                saved == old(saved)
    {
      hide ActOn, Form, Unique;
      Act(r);
      FormIsUnique(steps);
      MakeUnique();
      steps := Dense(Values(steps));
    }
  }

  lemma {:induction false} SwapInPlace(es: Steps, k: int, other: int)
    requires DistinctKeys(es) && HasKey(es, k) && k != other
    ensures var now := Swap(es, k, other);
            && |now| == |es| && (forall i :: 0 <= i < |es| ==> now[i].key == es[i].key)
            && (forall i :: 0 <= i < |es| ==> now[i].value == ExchangedAt(es, k, other, es[i]))
  {
    if HasKey(es, other) {
      var now := Assign(es, other, Get(es, k));
      AssignKeys(es, other, Get(es, k));
      assert now == Replace(es, other, Get(es, k));
      assert Swap(es, k, other) == Replace(now, k, Get(es, other));
    }
  }

  lemma {:induction false} FormStart(es: Steps)
    ensures Form(es, 0) == es
  {
    FrontStart(es, |es|);
  }

  lemma {:induction false} FrontStart(es: Steps, n: nat)
    requires n <= |es|
    ensures Front(es, 0, n) == es[..n]
    decreases n
  {
    if n > 0 {
      FrontStart(es, n - 1);
    }
  }

  lemma {:induction false} InnerStart(es: Steps, k: int, name: string)
    ensures InnerSoFar(es, es, 0, k, name)
  {
    assert es[..0] == [] && es[0..] == es;
  }

  lemma {:induction false} InnerEnd(now: Steps, es: Steps, k: int, name: string)
    requires InnerSoFar(now, es, |es|, k, name)
    ensures now == InnerResult(es, k, name)
  {
    assert es[..|es|] == es && es[|es|..] == [];
    assert Purge(es, k, name) + [] == Purge(es, k, name);
  }

  // ---- Runs ----

  /** A visit to the form: the list comes back as it was sent, or with one step edited in the popup
      window, and the request says what to do with it. */
  datatype Visit = Visit(edit: Option<(nat, Step)>, request: Request)

  function Posted(ss: seq<Step>, v: Visit): seq<Step> {
    if v.edit.Some? && v.edit.value.0 < |ss| then ss[v.edit.value.0 := v.edit.value.1] else ss
  }

  /** The place that a request moves, when the list has it. */
  predicate IsPlace(k: Option<int>, ss: seq<Step>) {
    k.Some? && 0 <= k.value < |ss|
  }

  /** Two places exchanged; nothing when one of them is not there. */
  function Exchanged(ss: seq<Step>, k: int, other: int): seq<Step> {
    if 0 <= k < |ss| && 0 <= other < |ss| then ss[k := ss[other]][other := ss[k]] else ss
  }

  /** What the actions are on a plain list: remove, append, exchange neighbours. */
  function ListAct(ss: seq<Step>, r: Request): seq<Step> {
    if r.delSteps.Some? then Without(ss, r.delSteps.value)
    else if r.newStep.Some? then ss + [r.newStep.value]
    else if IsPlace(r.moveUp, ss) then Exchanged(ss, r.moveUp.value, r.moveUp.value - 1)
    else if IsPlace(r.moveDown, ss) then Exchanged(ss, r.moveDown.value, r.moveDown.value + 1)
    else ss
  }

  predicate ListSaves(ss: seq<Step>, r: Request) {
    r.delSteps.None? && r.newStep.None? && !IsPlace(r.moveUp, ss) && !IsPlace(r.moveDown, ss) && !r.other && r.save
  }

  /** The list that a visit leaves. */
  function Left(ss: seq<Step>, v: Visit): seq<Step> {
    Unique(ListAct(Posted(ss, v), v.request))
  }

  function Run(ss: seq<Step>, visits: seq<Visit>): seq<Step> {
    if visits == [] then ss else Left(Run(ss, visits[..|visits| - 1]), visits[|visits| - 1])
  }

  /** The list that a visit hands to the database, if it does. */
  function Handed(ss: seq<Step>, v: Visit): seq<seq<Step>> {
    if ListSaves(Posted(ss, v), v.request) then [Posted(ss, v)] else []
  }

  function Written(ss: seq<Step>, visits: seq<Visit>): seq<seq<Step>> {
    if visits == [] then [] else
      var front := visits[..|visits| - 1];
      Written(ss, front) + Handed(Run(ss, front), visits[|visits| - 1])
  }

  lemma {:induction false} DenseValues(ss: seq<Step>)
    ensures DistinctKeys(Dense(ss)) && Values(Dense(ss)) == ss
  {
  }

  /** One visit, by the class: the array goes out with the form, comes back dense, and is dense again. */
  method OneVisit(list: StepList, ghost ss: seq<Step>, v: Visit)
    requires list.steps == Dense(ss)
    modifies list
    ensures list.steps == Dense(Left(ss, v)) && list.saved == old(list.saved) + Handed(ss, v)
  {
    hide ActOn, ListAct, Unique, Dense, Values, HasKey;
    DenseValues(ss);
    var posted := Posted(Values(list.steps), v);
    DenseValues(posted);
    list.Receive(Dense(posted));
    ActRefines(posted, v.request);
    MovesFound(posted, v.request);
    list.Handle(v.request);
  }

  lemma {:induction false} MovesFound(ss: seq<Step>, r: Request)
    ensures IsPlace(r.moveUp, ss) <==> r.moveUp.Some? && HasKey(Dense(ss), r.moveUp.value)
    ensures IsPlace(r.moveDown, ss) <==> r.moveDown.Some? && HasKey(Dense(ss), r.moveDown.value)
  {
    hide Dense, HasKey;
    if r.moveUp.Some? {
      DenseHas(ss, r.moveUp.value);
    }
    if r.moveDown.Some? {
      DenseHas(ss, r.moveDown.value);
    }
  }

  /** Exactly when a visit hands its list over. */
  lemma {:induction false} HandedIs(ss: seq<Step>, v: Visit)
    ensures var r, n := v.request, |ss|;
            Handed(ss, v) ==
            if r.save && !r.other && r.delSteps.None? && r.newStep.None?
               && (r.moveUp.Some? ==> !(0 <= r.moveUp.value < n)) && (r.moveDown.Some? ==> !(0 <= r.moveDown.value < n))
            then [Posted(ss, v)] else []
  {
  }

  function SaveCount(visits: seq<Visit>): (n: nat)
    ensures n == 0 <==> forall i :: 0 <= i < |visits| ==> !visits[i].request.save
  {
    if visits == [] then 0 else
      var front, last := visits[..|visits| - 1], visits[|visits| - 1];
      assert visits == front + [last];
      SaveCount(front) + if last.request.save then 1 else 0
  }

  /** A run hands over no more lists than it has visits with a save, and each list is the one posted
      in such a visit. */
  lemma {:induction false} WrittenBySaves(ss: seq<Step>, visits: seq<Visit>)
    ensures |Written(ss, visits)| <= SaveCount(visits)
    ensures (forall i :: 0 <= i < |visits| ==> !visits[i].request.save) ==> Written(ss, visits) == []
    ensures forall list :: list in Written(ss, visits) ==>
              exists i :: 0 <= i < |visits| && visits[i].request.save && list == Posted(Run(ss, visits[..i]), visits[i])
    decreases |visits|
  {
    hide Posted, Run;
    if visits != [] {
      var n := |visits| - 1;
      WrittenBySaves(ss, visits[..n]);
      HandedIs(Run(ss, visits[..n]), visits[n]);
      forall list | list in Written(ss, visits)
        ensures exists i :: 0 <= i < |visits| && visits[i].request.save
                            && list == Posted(Run(ss, visits[..i]), visits[i])
      {
        if list in Written(ss, visits[..n]) {
          var i :| 0 <= i < n && visits[..n][i].request.save
                   && list == Posted(Run(ss, visits[..n][..i]), visits[..n][i]);
          assert visits[..n][..i] == visits[..i];
        }
      }
    }
  }

  /** Every run of visits, by the class, refines the run on plain lists. */
  method AllVisits(list: StepList, ghost ss: seq<Step>, visits: seq<Visit>)
    requires list.steps == Dense(ss)
    modifies list
    ensures list.steps == Dense(Run(ss, visits))
    ensures list.saved == old(list.saved) + Written(ss, visits)
    ensures DistinctNames(ss) || visits != [] ==> DistinctNames(Run(ss, visits))
  {
    hide Left, Handed, Dense, DistinctNames;
    for i := 0 to |visits|
      invariant list.steps == Dense(Run(ss, visits[..i]))
      invariant list.saved == old(list.saved) + Written(ss, visits[..i])
    {
      assert visits[..i + 1][..i] == visits[..i];
      OneVisit(list, Run(ss, visits[..i]), visits[i]);
    }
    assert visits[..|visits|] == visits;
    RunDistinct(ss, visits);
  }

  lemma {:induction false} RunDistinct(ss: seq<Step>, visits: seq<Visit>)
    ensures DistinctNames(ss) || visits != [] ==> DistinctNames(Run(ss, visits))
  {
    if visits != [] {
      var before, v := Run(ss, visits[..|visits| - 1]), visits[|visits| - 1];
      UniqueNames(ListAct(Posted(before, v), v.request));
    }
  }

  /** The visit edits a step into the name of another step. */
  predicate Collides(ss: seq<Step>, v: Visit) {
    v.edit.Some? && v.edit.value.0 < |ss|
    && exists j :: 0 <= j < |ss| && j != v.edit.value.0 && ss[j].name == v.edit.value.1.name
  }

  lemma {:induction false} PostedDistinct(ss: seq<Step>, v: Visit)
    requires DistinctNames(ss)
    ensures DistinctNames(Posted(ss, v)) <==> !Collides(ss, v)
  {
    var posted := Posted(ss, v);
    if Collides(ss, v) {
      var j :| 0 <= j < |ss| && j != v.edit.value.0 && ss[j].name == v.edit.value.1.name;
      assert posted[j].name == posted[v.edit.value.0].name;
    }
  }

  ghost predicate AllDistinct(lists: seq<seq<Step>>) {
    forall k :: 0 <= k < |lists| ==> DistinctNames(lists[k])
  }

  /** Visit i is a save, and its edit collides with the list carried to it. */
  predicate SavesCollision(ss: seq<Step>, visits: seq<Visit>, i: nat)
    requires i < |visits|
  {
    var before := Run(ss, visits[..i]);
    ListSaves(Posted(before, visits[i]), visits[i].request) && Collides(before, visits[i])
  }

  predicate SavesNoCollision(ss: seq<Step>, visits: seq<Visit>) {
    forall i :: 0 <= i < |visits| ==> !SavesCollision(ss, visits, i)
  }

  lemma {:induction false} CollisionFront(ss: seq<Step>, visits: seq<Visit>, n: nat, i: nat)
    requires i < n <= |visits|
    ensures SavesCollision(ss, visits[..n], i) <==> SavesCollision(ss, visits, i)
  {
    hide Run, Collides, ListSaves;
    assert visits[..n][..i] == visits[..i];
  }

  lemma {:induction false} NoCollisionLast(ss: seq<Step>, visits: seq<Visit>, n: nat)
    requires |visits| == n + 1
    ensures SavesNoCollision(ss, visits) <==> SavesNoCollision(ss, visits[..n]) && !SavesCollision(ss, visits, n)
  {
    hide SavesCollision;
    forall i | 0 <= i < n
      ensures SavesCollision(ss, visits[..n], i) <==> SavesCollision(ss, visits, i)
    {
      CollisionFront(ss, visits, n, i);
    }
  }

  /** A save comes before the names are made unique. So every list that a run hands to the database
      has distinct names exactly when no visit saves a list in which its own edit took the name of
      another step. */
  lemma {:induction false} WrittenDistinctIff(ss: seq<Step>, visits: seq<Visit>)
    requires DistinctNames(ss)
    ensures AllDistinct(Written(ss, visits)) <==> SavesNoCollision(ss, visits)
    decreases |visits|
  {
    hide DistinctNames, Collides, Posted, AllDistinct, SavesNoCollision, SavesCollision, Run, Handed;
    if visits == [] {
      NothingWritten(ss);
    } else {
      var n := |visits| - 1;
      WrittenDistinctIff(ss, visits[..n]);
      RunDistinct(ss, visits[..n]);
      PostedDistinct(Run(ss, visits[..n]), visits[n]);
      HandedDistinct(ss, visits, n);
      NoCollisionLast(ss, visits, n);
      AllDistinctAppend(Written(ss, visits[..n]), Handed(Run(ss, visits[..n]), visits[n]));
    }
  }

  lemma {:induction false} NothingWritten(ss: seq<Step>)
    ensures AllDistinct([]) && SavesNoCollision(ss, [])
  {
  }

  lemma {:induction false} AllDistinctAppend(a: seq<seq<Step>>, b: seq<seq<Step>>)
    ensures AllDistinct(a + b) <==> AllDistinct(a) && AllDistinct(b)
  {
    if AllDistinct(a + b) {
      assert forall k :: 0 <= k < |a| ==> a[k] == (a + b)[k];
      assert forall k :: 0 <= k < |b| ==> b[k] == (a + b)[|a| + k];
    }
  }

  lemma {:induction false} HandedDistinct(ss: seq<Step>, visits: seq<Visit>, i: nat)
    requires i < |visits|
    requires DistinctNames(Posted(Run(ss, visits[..i]), visits[i])) <==> !Collides(Run(ss, visits[..i]), visits[i])
    ensures AllDistinct(Handed(Run(ss, visits[..i]), visits[i])) <==> !SavesCollision(ss, visits, i)
  {
    hide DistinctNames, Collides, ListSaves, Posted, Run;
    var before := Run(ss, visits[..i]);
    if ListSaves(Posted(before, visits[i]), visits[i].request) {
      assert Handed(before, visits[i])[0] == Posted(before, visits[i]);
    }
  }

  /** A run that writes a duplicate: the second step is renamed to the first in the visit that saves. */
  lemma {:induction false} WritesDuplicate(s: Step, t: Step)
    requires s.name != t.name
    ensures var v := Visit(Some((1, t.(name := s.name))), Request(None, None, None, None, false, true));
            && DistinctNames([s, t]) && SavesCollision([s, t], [v], 0)
            && Written([s, t], [v]) == [[s, t.(name := s.name)]] && !AllDistinct(Written([s, t], [v]))
  {
    var v := Visit(Some((1, t.(name := s.name))), Request(None, None, None, None, false, true));
    assert [v][..0] == [] && Run([s, t], []) == [s, t] && Written([s, t], []) == [];
    assert Posted([s, t], v) == [s, t.(name := s.name)];
    assert [s, t][0].name == v.edit.value.1.name;
    var lists: seq<seq<Step>> := [[s, t.(name := s.name)]];
    assert Written([s, t], [v]) == [] + Handed([s, t], v) == lists;
    assert lists[0][0].name == lists[0][1].name;
  }

  // ---- The actions are plain list operations ----

  /** The places below n that a selection leaves, in order. */
  function KeptPlaces(sel: seq<int>, n: nat): (js: seq<nat>)
    ensures forall a :: 0 <= a < |js| ==> js[a] < n && js[a] !in sel
    ensures forall a, b :: 0 <= a < b < |js| ==> js[a] < js[b]
  {
    if n == 0 then [] else KeptPlaces(sel, n - 1) + if n - 1 in sel then [] else [n - 1]
  }

  /** Exactly those. */
  lemma {:induction false} KeptComplete(sel: seq<int>, n: nat, j: nat)
    ensures j in KeptPlaces(sel, n) <==> j < n && j !in sel
    decreases n
  {
    if n > 0 {
      KeptComplete(sel, n - 1, j);
    }
  }

  /** The list without the selected places. */
  function Without(ss: seq<Step>, sel: seq<int>): seq<Step> {
    Pick(ss, KeptPlaces(sel, |ss|))
  }

  function KeptEntry(ss: seq<Step>, sel: seq<int>, j: nat): Steps
    requires j < |ss|
  {
    if j in sel then [] else [Entry(j, ss[j])]
  }

  function WithoutEntries(ss: seq<Step>, sel: seq<int>, n: nat): Steps
    requires n <= |ss|
  {
    if n == 0 then [] else WithoutEntries(ss, sel, n - 1) + KeptEntry(ss, sel, n - 1)
  }

  lemma {:induction false} UnsetKept(ss: seq<Step>, sel: seq<int>, more: seq<int>, k: int, j: nat)
    requires j < |ss| && more == sel + [k]
    ensures Unset(KeptEntry(ss, sel, j), k) == KeptEntry(ss, more, j)
  {
  }

  lemma {:induction false} UnsetParts(a: Steps, b: Steps, k: int, a': Steps, b': Steps)
    requires Unset(a, k) == a' && Unset(b, k) == b'
    ensures Unset(a + b, k) == a' + b'
  {
    UnsetAppend(a, b, k);
  }

  lemma {:induction false} WithoutStart(ss: seq<Step>, sel: seq<int>, k: int)
    ensures WithoutEntries(ss, sel, 0) == [] == Unset<Step>([], k)
  {
  }

  lemma {:induction false} WithoutNext(ss: seq<Step>, sel: seq<int>, n: nat)
    requires n < |ss|
    ensures WithoutEntries(ss, sel, n + 1) == WithoutEntries(ss, sel, n) + KeptEntry(ss, sel, n)
  {
  }

  lemma {:induction false} UnsetOne(ss: seq<Step>, sel: seq<int>, more: seq<int>, k: int, n: nat)
    requires n <= |ss| && more == sel + [k]
    ensures Unset(WithoutEntries(ss, sel, n), k) == WithoutEntries(ss, more, n)
    decreases n
  {
    hide Unset, KeptEntry, WithoutEntries;
    if n == 0 {
      WithoutStart(ss, sel, k);
      WithoutStart(ss, more, k);
    } else {
      UnsetOne(ss, sel, more, k, n - 1);
      UnsetKept(ss, sel, more, k, n - 1);
      WithoutNext(ss, sel, n - 1);
      WithoutNext(ss, more, n - 1);
      UnsetParts(WithoutEntries(ss, sel, n - 1), KeptEntry(ss, sel, n - 1), k,
                 WithoutEntries(ss, more, n - 1), KeptEntry(ss, more, n - 1));
    }
  }

  lemma {:induction false} WithoutNone(ss: seq<Step>, n: nat)
    requires n <= |ss|
    ensures WithoutEntries(ss, [], n) == Dense(ss)[..n]
    decreases n
  {
    if n > 0 {
      WithoutNone(ss, n - 1);
    }
  }

  lemma {:induction false} UnsetAllDense(ss: seq<Step>, sel: seq<int>)
    ensures UnsetAll(Dense(ss), sel) == WithoutEntries(ss, sel, |ss|)
    decreases |sel|
  {
    if sel == [] {
      WithoutNone(ss, |ss|);
    } else {
      UnsetAllDense(ss, sel[..|sel| - 1]);
      UnsetOne(ss, sel[..|sel| - 1], sel, sel[|sel| - 1], |ss|);
    }
  }

  lemma {:induction false} WithoutValues(ss: seq<Step>, sel: seq<int>, n: nat)
    requires n <= |ss|
    ensures Values(WithoutEntries(ss, sel, n)) == Pick(ss, KeptPlaces(sel, n))
    decreases n
  {
    if n > 0 {
      WithoutValues(ss, sel, n - 1);
    }
  }

  lemma {:induction false} DenseHas(ss: seq<Step>, k: int)
    ensures HasKey(Dense(ss), k) <==> 0 <= k < |ss|
    ensures 0 <= k < |ss| ==> Get(Dense(ss), k) == ss[k]
  {
    DenseValues(ss);
    if 0 <= k < |ss| {
      assert Dense(ss)[k].key == k;
      GetAt(Dense(ss), k);
    }
  }

  lemma {:induction false} AssignDense(ss: seq<Step>, k: int, s: Step)
    requires 0 <= k < |ss|
    ensures Assign(Dense(ss), k, s) == Dense(ss[k := s])
  {
    DenseHas(ss, k);
  }

  lemma {:induction false} SwapDense(ss: seq<Step>, k: int, other: int)
    requires 0 <= k < |ss| && k != other
    ensures HasKey(Dense(ss), k) && Values(Swap(Dense(ss), k, other)) == Exchanged(ss, k, other)
  {
    hide HasKey, Get, Assign, Dense;
    DenseHas(ss, k);
    DenseHas(ss, other);
    DenseValues(ss);
    if 0 <= other < |ss| {
      var one := ss[other := ss[k]];
      AssignDense(ss, other, ss[k]);
      AssignDense(one, k, ss[other]);
      DenseValues(one[k := ss[other]]);
      assert one[k := ss[other]] == ss[k := ss[other]][other := ss[k]];
    }
  }

  /** On every dense array, whatever its names, the actions on keys are the plain list operations. */
  lemma {:induction false} ActRefines(ss: seq<Step>, r: Request)
    ensures Values(ActOn(Dense(ss), r)) == ListAct(ss, r)
  {
    hide Swap, Dense, Values, Get, HasKey, Exchanged, UnsetAll, Without, NextKey;
    DenseValues(ss);
    MovesFound(ss, r);
    if r.delSteps.Some? {
      DeleteDense(ss, r.delSteps.value);
    } else if r.newStep.Some? {
      AppendValue(Dense(ss), NextKey(Dense(ss)), r.newStep.value);
    } else if IsPlace(r.moveUp, ss) {
      SwapDense(ss, r.moveUp.value, r.moveUp.value - 1);
    } else if IsPlace(r.moveDown, ss) {
      SwapDense(ss, r.moveDown.value, r.moveDown.value + 1);
    }
  }

  lemma {:induction false} DeleteDense(ss: seq<Step>, sel: seq<int>)
    ensures Values(UnsetAll(Dense(ss), sel)) == Without(ss, sel)
  {
    UnsetAllDense(ss, sel);
    WithoutValues(ss, sel, |ss|);
  }

  // ---- On the lists of distinct names that a run carries, they stay what they are ----

  lemma {:induction false} PickDistinct(ss: seq<Step>, js: seq<nat>)
    requires DistinctNames(ss) && forall a :: 0 <= a < |js| ==> js[a] < |ss|
    requires forall a, b :: 0 <= a < b < |js| ==> js[a] < js[b]
    ensures DistinctNames(Pick(ss, js))
  {
  }

  /** A visit without an action leaves the list that was posted. */
  lemma {:induction false} IdleRefines(ss: seq<Step>, v: Visit)
    requires DistinctNames(Posted(ss, v)) && v.request.delSteps.None? && v.request.newStep.None?
    requires v.request.moveUp.Some? ==> !(0 <= v.request.moveUp.value < |ss|)
    requires v.request.moveDown.Some? ==> !(0 <= v.request.moveDown.value < |ss|)
    ensures Left(ss, v) == Posted(ss, v)
  {
    hide Unique, DistinctNames, Without, Exchanged;
    UniqueIdentity(Posted(ss, v));
  }

  /** Deleting takes exactly the selected places out; keys that are not there do nothing. */
  lemma {:induction false} DeleteRefines(ss: seq<Step>, r: Request)
    requires DistinctNames(ss) && r.delSteps.Some?
    ensures Left(ss, Visit(None, r)) == Without(ss, r.delSteps.value)
  {
    PickDistinct(ss, KeptPlaces(r.delSteps.value, |ss|));
    UniqueIdentity(Without(ss, r.delSteps.value));
  }

  lemma {:induction false} ExchangedDistinct(ss: seq<Step>, k: int, other: int)
    requires DistinctNames(ss)
    ensures DistinctNames(Exchanged(ss, k, other))
  {
  }

  /** Moving up exchanges a step with the one before it; at the top, nothing happens. */
  lemma {:induction false} MoveUpRefines(ss: seq<Step>, r: Request, k: nat)
    requires DistinctNames(ss) && r.delSteps.None? && r.newStep.None? && r.moveUp == Some(k) && k < |ss|
    ensures Left(ss, Visit(None, r)) == if k > 0 then ss[k := ss[k - 1]][k - 1 := ss[k]] else ss
  {
    hide Unique, DistinctNames;
    ExchangedDistinct(ss, k, k - 1);
    UniqueIdentity(Exchanged(ss, k, k - 1));
  }

  /** Moving down exchanges it with the one after it; at the end, nothing happens. */
  lemma {:induction false} MoveDownRefines(ss: seq<Step>, r: Request, k: nat)
    requires DistinctNames(ss) && r.delSteps.None? && r.newStep.None? && !IsPlace(r.moveUp, ss)
    requires r.moveDown == Some(k) && k < |ss|
    ensures Left(ss, Visit(None, r)) == if k + 1 < |ss| then ss[k := ss[k + 1]][k + 1 := ss[k]] else ss
  {
    hide Unique, DistinctNames;
    ExchangedDistinct(ss, k, k + 1);
    UniqueIdentity(Exchanged(ss, k, k + 1));
  }

  /** A new step goes to the end, and takes out the step that had its name. */
  lemma {:induction false} AddRefines(ss: seq<Step>, r: Request)
    requires DistinctNames(ss) && r.delSteps.None? && r.newStep.Some?
    ensures var s, m := r.newStep.value, LastBefore(ss, r.newStep.value.name, |ss|);
            Left(ss, Visit(None, r)) == (if m == -1 then ss else ss[..m] + ss[m + 1..]) + [s]
  {
    hide Unique, LastBefore, DistinctNames;
    AddedUnique(ss, r.newStep.value);
  }

  lemma {:induction false} AppendValue(es: Steps, k: int, s: Step)
    ensures Values(es + [Entry(k, s)]) == Values(es) + [s]
  {
  }

  lemma {:induction false} AddedUnique(ss: seq<Step>, s: Step)
    requires DistinctNames(ss)
    ensures var m := LastBefore(ss, s.name, |ss|);
            Unique(ss + [s]) == (if m == -1 then ss else ss[..m] + ss[m + 1..]) + [s]
  {
    hide LastBefore, DistinctNames, Pick, OncePlaces, AgainPlaces, Except;
    var m, all := LastBefore(ss, s.name, |ss|), ss + [s];
    if m == -1 {
      hide Unique;
      AddedFresh(ss, s);
      UniqueIdentity(all);
    } else {
      AddedPlaces(ss, s, m);
      AddedLast(ss, s, m);
      ExceptFront(ss, s, m);
      assert OncePlaces(all, |ss|) + ([] + [|ss|]) == OncePlaces(all, |ss|) + [|ss|];
      PickFew(all, |ss|);
      PickAppend(all, OncePlaces(all, |ss|), [|ss|]);
    }
  }

  lemma {:induction false} ExceptFront(ss: seq<Step>, s: Step, m: nat)
    requires m < |ss|
    ensures Except(ss + [s], m, |ss|) == ss[..m] + ss[m + 1..]
  {
    assert (ss + [s])[..m] == ss[..m] && (ss + [s])[m + 1..|ss|] == ss[m + 1..];
  }

  lemma {:induction false} AddedFresh(ss: seq<Step>, s: Step)
    requires DistinctNames(ss) && LastBefore(ss, s.name, |ss|) == -1
    ensures DistinctNames(ss + [s])
  {
  }

  lemma {:induction false} LastBeforePrefix(ss: seq<Step>, s: Step, name: string, n: nat)
    requires n <= |ss|
    ensures LastBefore(ss + [s], name, n) == LastBefore(ss, name, n)
    decreases n
  {
    if n > 0 {
      LastBeforePrefix(ss, s, name, n - 1);
    }
  }

  /** With one more step of the name of place m at its end, a list of distinct names has m repeated
      and its other places unique. */
  lemma {:induction false} AddedAt(ss: seq<Step>, s: Step, m: nat, j: nat)
    requires DistinctNames(ss) && m < |ss| && ss[m].name == s.name && j < |ss|
    ensures (IsOnce(ss + [s], j) <==> j != m) && !IsAgain(ss + [s], j)
  {
    LastBeforePrefix(ss, s, ss[j].name, j);
    LastBeforePrefix(ss, s, ss[j].name, |ss|);
    OnlyPlace(ss, j, j);
    OnlyPlace(ss, j, |ss|);
    assert j != m ==> ss[j].name != s.name;
  }

  lemma {:induction false} AddedLast(ss: seq<Step>, s: Step, m: nat)
    requires LastBefore(ss, s.name, |ss|) == m
    ensures var all := ss + [s];
            && OncePlaces(all, |all|) == OncePlaces(all, |ss|)
            && AgainPlaces(all, |all|) == AgainPlaces(all, |ss|) + [|ss|]
  {
    LastBeforePrefix(ss, s, s.name, |ss|);
    assert IsAgain(ss + [s], |ss|) && !IsOnce(ss + [s], |ss|);
  }

  /** The first n elements without the one at m. */
  function Except(ss: seq<Step>, m: nat, n: nat): seq<Step>
    requires n <= |ss|
  {
    if m < n then ss[..m] + ss[m + 1..n] else ss[..n]
  }

  lemma {:induction false} ExceptNext(ss: seq<Step>, m: nat, n: nat)
    requires n < |ss|
    ensures Except(ss, m, n + 1) == Except(ss, m, n) + if n == m then [] else [ss[n]]
  {
  }

  lemma {:induction false} PlacesNext(ss: seq<Step>, m: nat, n: nat)
    requires n < |ss| && (IsOnce(ss, n) <==> n != m) && !IsAgain(ss, n)
    ensures Pick(ss, OncePlaces(ss, n + 1)) == Pick(ss, OncePlaces(ss, n)) + if n == m then [] else [ss[n]]
    ensures AgainPlaces(ss, n + 1) == AgainPlaces(ss, n)
  {
    hide IsOnce, IsAgain, Pick;
    PickFew(ss, n);
    PickAppend(ss, OncePlaces(ss, n), if n == m then [] else [n]);
  }

  lemma {:induction false} PlacesExcept(ss: seq<Step>, m: nat, n: nat)
    requires n <= |ss| && forall j :: 0 <= j < n ==> (IsOnce(ss, j) <==> j != m) && !IsAgain(ss, j)
    ensures Pick(ss, OncePlaces(ss, n)) == Except(ss, m, n) && AgainPlaces(ss, n) == []
    decreases n
  {
    hide IsOnce, IsAgain, Except, Pick, OncePlaces, AgainPlaces;
    if n == 0 {
      NoPlaces(ss, m);
    } else {
      PlacesExcept(ss, m, n - 1);
      PlacesNext(ss, m, n - 1);
      ExceptNext(ss, m, n - 1);
    }
  }

  lemma {:induction false} AddedPlaces(ss: seq<Step>, s: Step, m: nat)
    requires DistinctNames(ss) && m < |ss| && ss[m].name == s.name
    ensures var all := ss + [s];
            Pick(all, OncePlaces(all, |ss|)) == Except(all, m, |ss|) && AgainPlaces(all, |ss|) == []
  {
    hide IsOnce, IsAgain, Except, Pick, DistinctNames;
    forall j | 0 <= j < |ss|
      ensures (IsOnce(ss + [s], j) <==> j != m) && !IsAgain(ss + [s], j)
    {
      AddedAt(ss, s, m, j);
    }
    PlacesExcept(ss + [s], m, |ss|);
  }

  lemma {:induction false} NoPlaces(ss: seq<Step>, m: nat)
    ensures OncePlaces(ss, 0) == [] == AgainPlaces(ss, 0) && Pick(ss, []) == [] == Except(ss, m, 0)
  {
  }
}
