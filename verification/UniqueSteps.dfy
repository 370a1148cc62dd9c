/** The closed form of the nested loop that gives scenario steps unique names. */
module UniqueSteps {
  import opened Text
  import opened PhpArray

  datatype Step = Step(name: string, timeout: string, url: string, posts: string, required: string,
                       statusCodes: string)

  type Steps = seq<Entry<Step>>

  // ---- The inner loop ----

  /** The inner loop takes e for a duplicate of the step named `name` at key k. */
  predicate Duplicates(e: Entry<Step>, k: int, name: string) {
    e.value.name == name && e.key != k
  }

  /** The list without the duplicates. */
  function Purge(es: Steps, k: int, name: string): Steps {
    if es == [] then [] else (if Duplicates(es[0], k, name) then [] else [es[0]]) + Purge(es[1..], k, name)
  }

  /** The last duplicate's step. */
  function LastMatch(es: Steps, k: int, name: string): Option<Step> {
    if es == [] then None
    else if LastMatch(es[1..], k, name).Some? then LastMatch(es[1..], k, name)
    else if Duplicates(es[0], k, name) then Some(es[0].value)
    else None
  }

  function Absorb(es: Steps, k: int, s: Option<Step>): Steps {
    if s.None? then es else Assign(es, k, s.value)
  }

  /** What one run of the inner loop makes of the list: the duplicates are gone, and the last of
      them has gone into key k. */
  function InnerResult(es: Steps, k: int, name: string): Steps {
    Absorb(Purge(es, k, name), k, LastMatch(es, k, name))
  }

  lemma {:induction false} PurgeAppend(a: Steps, b: Steps, k: int, name: string)
    ensures Purge(a + b, k, name) == Purge(a, k, name) + Purge(b, k, name)
  {
    if a == [] {
      assert a + b == b;
    } else {
      assert (a + b)[1..] == a[1..] + b;
      PurgeAppend(a[1..], b, k, name);
    }
  }

  lemma {:induction false} MatchAppend(a: Steps, b: Steps, k: int, name: string)
    ensures LastMatch(a + b, k, name)
         == if LastMatch(b, k, name).Some? then LastMatch(b, k, name) else LastMatch(a, k, name)
  {
    if a == [] {
      assert a + b == b;
    } else {
      assert (a + b)[1..] == a[1..] + b;
      MatchAppend(a[1..], b, k, name);
    }
  }

  lemma {:induction false} PurgeKeys(es: Steps, k: int, name: string)
    ensures forall e {:trigger e in Purge(es, k, name)} :: e in Purge(es, k, name) ==> e in es
  {
    if es != [] {
      PurgeKeys(es[1..], k, name);
    }
  }

  lemma {:induction false} OtherKey(es: Steps, t: nat, part: Steps)
    requires DistinctKeys(es) && t < |es|
    requires || (forall e {:trigger e in part} :: e in part ==> e in es[..t])
             || (forall e {:trigger e in part} :: e in part ==> e in es[t + 1..])
    ensures !HasKey(part, es[t].key)
  {
    forall i | 0 <= i < |part|
      ensures part[i].key != es[t].key
    {
      assert part[i] in part;
    }
  }

  /** One turn of the inner loop: the duplicate at place t is read, absorbed and dropped. */
  lemma {:induction false} InnerStep(es: Steps, t: nat, k: int, name: string)
    requires DistinctKeys(es) && t < |es| && Duplicates(es[t], k, name)
    ensures var done := Purge(es[..t], k, name);
            var now := Absorb(done + es[t..], k, LastMatch(es[..t], k, name));
            && HasKey(now, es[t].key) && Get(now, es[t].key) == es[t].value
            && Unset(Assign(now, k, es[t].value), es[t].key) == Assign(done + es[t + 1..], k, es[t].value)
  {
    var done, e, rest := Purge(es[..t], k, name), es[t], es[t + 1..];
    var cur, last := done + es[t..], LastMatch(es[..t], k, name);
    assert es[t..] == [e] + rest;
    PurgeKeys(es[..t], k, name);
    OtherKey(es, t, done);
    OtherKey(es, t, rest);
    GetAfter(done, e, rest);
    UnsetBetween(done, e, rest);
    assert cur == done + ([e] + rest);
    if last.Some? {
      AssignTwice(cur, k, last.value, e.value);
      GetAssign(cur, k, last.value, e.key);
    }
    AssignUnset(cur, k, e.value, e.key);
  }

  lemma {:induction false} GetAfter(a: Steps, e: Entry<Step>, b: Steps)
    requires !HasKey(a, e.key)
    ensures HasKey(a + ([e] + b), e.key) && Get(a + ([e] + b), e.key) == e.value
  {
    assert (a + ([e] + b))[|a|] == e;
    if a == [] {
      assert a + ([e] + b) == [e] + b;
    } else {
      assert a[0].key != e.key && !HasKey(a[1..], e.key);
      assert (a + ([e] + b))[1..] == a[1..] + ([e] + b);
      GetAfter(a[1..], e, b);
    }
  }

  lemma {:induction false} UnsetBetween(a: Steps, e: Entry<Step>, b: Steps)
    requires !HasKey(a, e.key) && !HasKey(b, e.key)
    ensures Unset(a + ([e] + b), e.key) == a + b
  {
    UnsetAppend(a, [e] + b, e.key);
    UnsetAbsent(a, e.key);
    assert ([e] + b)[1..] == b;
    UnsetAbsent(b, e.key);
  }

  lemma {:induction false} GetReplace(es: Steps, k: int, v: Step, j: int)
    requires j != k && HasKey(es, j)
    ensures HasKey(Replace(es, k, v), j) && Get(Replace(es, k, v), j) == Get(es, j)
  {
    var i :| 0 <= i < |es| && es[i].key == j;
    assert Replace(es, k, v)[i].key == j;
    if es[0].key != j {
      assert es[1..][i - 1].key == j;
      GetReplace(es[1..], k, v, j);
      assert Replace(es, k, v)[1..] == Replace(es[1..], k, v);
    }
  }

  lemma {:induction false} GetPrefix(a: Steps, b: Steps, j: int)
    requires HasKey(a, j)
    ensures HasKey(a + b, j) && Get(a + b, j) == Get(a, j)
  {
    var i :| 0 <= i < |a| && a[i].key == j;
    assert (a + b)[i].key == j;
    if a[0].key != j {
      assert a[1..][i - 1].key == j;
      GetPrefix(a[1..], b, j);
      assert (a + b)[1..] == a[1..] + b;
    }
  }

  lemma {:induction false} GetAssign(es: Steps, k: int, v: Step, j: int)
    requires j != k && HasKey(es, j)
    ensures HasKey(Assign(es, k, v), j) && Get(Assign(es, k, v), j) == Get(es, j)
  {
    if HasKey(es, k) {
      GetReplace(es, k, v, j);
    } else {
      GetPrefix(es, [Entry(k, v)], j);
    }
  }

  /** The invariant of the inner loop after t turns. */
  ghost predicate InnerSoFar(now: Steps, es: Steps, t: nat, k: int, name: string)
    requires t <= |es|
  {
    now == Absorb(Purge(es[..t], k, name) + es[t..], k, LastMatch(es[..t], k, name))
  }

  lemma {:induction false} InnerNext(now: Steps, es: Steps, t: nat, k: int, name: string)
    requires DistinctKeys(es) && t < |es| && InnerSoFar(now, es, t, k, name)
    ensures Duplicates(es[t], k, name) ==>
              && HasKey(now, es[t].key) && Get(now, es[t].key) == es[t].value
              && InnerSoFar(Unset(Assign(now, k, es[t].value), es[t].key), es, t + 1, k, name)
    ensures !Duplicates(es[t], k, name) ==> InnerSoFar(now, es, t + 1, k, name)
  {
    assert es[..t + 1] == es[..t] + [es[t]] && es[t..] == [es[t]] + es[t + 1..];
    PurgeAppend(es[..t], [es[t]], k, name);
    MatchAppend(es[..t], [es[t]], k, name);
    if Duplicates(es[t], k, name) {
      InnerStep(es, t, k, name);
      assert Purge([es[t]], k, name) == [] && LastMatch([es[t]], k, name) == Some(es[t].value);
      assert Purge(es[..t + 1], k, name) == Purge(es[..t], k, name);
    } else {
      assert Purge([es[t]], k, name) == [es[t]] && LastMatch([es[t]], k, name) == None;
      assert Purge(es[..t], k, name) + es[t..] == Purge(es[..t + 1], k, name) + es[t + 1..];
    }
  }

  // ---- The outer loop ----

  /** The last place before n that holds a step of this name, or -1. */
  function LastBefore(ss: seq<Step>, name: string, n: nat): (j: int)
    requires n <= |ss|
    ensures -1 <= j < n
    ensures j >= 0 ==> ss[j].name == name
    ensures forall i :: j < i < n ==> ss[i].name != name
  {
    if n == 0 then -1 else if ss[n - 1].name == name then n - 1 else LastBefore(ss, name, n - 1)
  }

  /** The last step of the same name as step j. */
  function LastOf(ss: seq<Step>, j: nat): Step
    requires j < |ss|
  {
    ss[LastBefore(ss, ss[j].name, |ss|)]
  }

  /** What stands at its original place for entry j after the outer loop has dealt with i entries:
      the entry itself while its name has not come up; the last data for the name's first entry
      until the name comes up again; afterwards nothing. */
  function FrontAt(es: Steps, i: nat, j: nat): Steps
    requires i <= |es| && j < |es|
  {
    var ss := Values(es);
    var seen := LastBefore(ss, ss[j].name, i);
    if seen == -1 then [es[j]]
    else if seen == j && LastBefore(ss, ss[j].name, j) == -1 then [Entry(es[j].key, LastOf(ss, j))]
    else []
  }

  /** What has been put at the end for entry j: the last data, when its name has come up before and
      has not come up since. */
  function BackAt(es: Steps, i: nat, j: nat): Steps
    requires j < i <= |es|
  {
    var ss := Values(es);
    if LastBefore(ss, ss[j].name, i) == j && LastBefore(ss, ss[j].name, j) != -1 then [Entry(es[j].key, LastOf(ss, j))]
    else []
  }

  function Front(es: Steps, i: nat, n: nat): Steps
    requires i <= |es| && n <= |es|
  {
    if n == 0 then [] else Front(es, i, n - 1) + FrontAt(es, i, n - 1)
  }

  function Back(es: Steps, i: nat, n: nat): Steps
    requires n <= i <= |es|
  {
    if n == 0 then [] else Back(es, i, n - 1) + BackAt(es, i, n - 1)
  }

  /** The list after i turns of the outer loop. */
  function Form(es: Steps, i: nat): Steps
    requires i <= |es|
  {
    Front(es, i, |es|) + Back(es, i, i)
  }

  // The turn for entry i, when its name comes up for the first time: later entries of the name are
  // dropped, and the last of them replaces the data of entry i.

  lemma {:induction false} FirstFrontAt(es: Steps, i: nat, j: nat)
    requires DistinctKeys(es) && i < |es| && j < |es|
    requires LastBefore(Values(es), es[i].value.name, i) == -1
    ensures var k, name, last := es[i].key, es[i].value.name, LastOf(Values(es), i);
            var purged := Purge(FrontAt(es, i, j), k, name);
            && Replace(purged, k, last) == FrontAt(es, i + 1, j)
            && (last == es[i].value ==> purged == Replace(purged, k, last))
            && LastMatch(FrontAt(es, i, j), k, name)
            == if j > i && es[j].value.name == name then Some(es[j].value) else None
  {
    assert j != i ==> es[j].key != es[i].key;
  }

  lemma {:induction false} FirstBackAt(es: Steps, i: nat, j: nat)
    requires DistinctKeys(es) && i < |es| && j < i
    requires LastBefore(Values(es), es[i].value.name, i) == -1
    ensures var k, name, last := es[i].key, es[i].value.name, LastOf(Values(es), i);
            var purged := Purge(BackAt(es, i, j), k, name);
            && purged == BackAt(es, i + 1, j) == Replace(purged, k, last)
            && LastMatch(BackAt(es, i, j), k, name) == None
  {
    assert es[j].key != es[i].key;
  }

  // The turn for entry i, when its name has come up before: the one entry of the name is dropped,
  // and its data is put at the end under the key of entry i.

  lemma {:induction false} AgainFrontAt(es: Steps, i: nat, j: nat)
    requires DistinctKeys(es) && i < |es| && j < |es|
    requires LastBefore(Values(es), es[i].value.name, i) != -1
    ensures var k, name, ss := es[i].key, es[i].value.name, Values(es);
            var b := LastBefore(ss, name, i);
            && Purge(FrontAt(es, i, j), k, name) == FrontAt(es, i + 1, j) && !HasKey(FrontAt(es, i + 1, j), k)
            && LastMatch(FrontAt(es, i, j), k, name)
            == if j == b && LastBefore(ss, name, b) == -1 then Some(LastOf(ss, i)) else None
  {
    assert j != i ==> es[j].key != es[i].key;
  }

  lemma {:induction false} AgainBackAt(es: Steps, i: nat, j: nat)
    requires DistinctKeys(es) && i < |es| && j < i
    requires LastBefore(Values(es), es[i].value.name, i) != -1
    ensures var k, name, ss := es[i].key, es[i].value.name, Values(es);
            var b := LastBefore(ss, name, i);
            && Purge(BackAt(es, i, j), k, name) == BackAt(es, i + 1, j) && !HasKey(BackAt(es, i + 1, j), k)
            && LastMatch(BackAt(es, i, j), k, name)
            == if j == b && LastBefore(ss, name, b) != -1 then Some(LastOf(ss, i)) else None
  {
    assert es[j].key != es[i].key;
  }

  lemma {:induction false} ReplaceAppend(a: Steps, b: Steps, k: int, v: Step)
    ensures Replace(a + b, k, v) == Replace(a, k, v) + Replace(b, k, v)
  {
  }

  lemma {:induction false} EmptyTurn(k: int, name: string, v: Step)
    ensures Purge([], k, name) == [] == Replace([], k, v) && LastMatch([], k, name) == None && !HasKey<Step>([], k)
  {
  }

  /** What a turn does to a list, it does to each half. */
  lemma {:induction false} Halves(a: Steps, b: Steps, k: int, name: string, v: Step)
    ensures Purge(a + b, k, name) == Purge(a, k, name) + Purge(b, k, name)
    ensures LastMatch(a + b, k, name)
         == if LastMatch(b, k, name).Some? then LastMatch(b, k, name) else LastMatch(a, k, name)
    ensures Replace(Purge(a + b, k, name), k, v) == Replace(Purge(a, k, name), k, v) + Replace(Purge(b, k, name), k, v)
    ensures HasKey(Purge(a + b, k, name), k) <==> HasKey(Purge(a, k, name), k) || HasKey(Purge(b, k, name), k)
  {
    PurgeAppend(a, b, k, name);
    MatchAppend(a, b, k, name);
    ReplaceAppend(Purge(a, k, name), Purge(b, k, name), k, v);
    HasKeyPrefix(Purge(a, k, name), Purge(b, k, name), k);
  }

  lemma {:induction false} FirstFront(es: Steps, i: nat, n: nat)
    requires DistinctKeys(es) && i < |es| && n <= |es|
    requires LastBefore(Values(es), es[i].value.name, i) == -1
    ensures var k, name, last := es[i].key, es[i].value.name, LastOf(Values(es), i);
            var purged := Purge(Front(es, i, n), k, name);
            && Replace(purged, k, last) == Front(es, i + 1, n)
            && (last == es[i].value ==> purged == Replace(purged, k, last))
    decreases n
  {
    hide FrontAt, LastOf, Purge, LastMatch, Replace, HasKey, DistinctKeys, Values, LastBefore;
    EmptyTurn(es[i].key, es[i].value.name, LastOf(Values(es), i));
    if n > 0 {
      FirstFront(es, i, n - 1);
      FirstFrontAt(es, i, n - 1);
      Halves(Front(es, i, n - 1), FrontAt(es, i, n - 1), es[i].key, es[i].value.name, LastOf(Values(es), i));
    }
  }

  lemma {:induction false} FirstMatch(es: Steps, i: nat, n: nat)
    requires DistinctKeys(es) && i < |es| && n <= |es|
    requires LastBefore(Values(es), es[i].value.name, i) == -1
    ensures var k, name := es[i].key, es[i].value.name;
            var m := LastBefore(Values(es), name, n);
            LastMatch(Front(es, i, n), k, name) == if m > i then Some(es[m].value) else None
    decreases n
  {
    hide FrontAt, LastOf, Purge, LastMatch, Replace, HasKey, DistinctKeys, Values;
    EmptyTurn(es[i].key, es[i].value.name, LastOf(Values(es), i));
    if n > 0 {
      FirstMatch(es, i, n - 1);
      FirstFrontAt(es, i, n - 1);
      Halves(Front(es, i, n - 1), FrontAt(es, i, n - 1), es[i].key, es[i].value.name, LastOf(Values(es), i));
    }
  }

  lemma {:induction false} FirstBack(es: Steps, i: nat, n: nat)
    requires DistinctKeys(es) && i < |es| && n <= i
    requires LastBefore(Values(es), es[i].value.name, i) == -1
    ensures var k, name, last := es[i].key, es[i].value.name, LastOf(Values(es), i);
            var purged := Purge(Back(es, i, n), k, name);
            && Replace(purged, k, last) == Back(es, i + 1, n) == purged
            && LastMatch(Back(es, i, n), k, name) == None
    decreases n
  {
    hide BackAt, LastOf, Purge, LastMatch, Replace, HasKey, DistinctKeys, Values;
    EmptyTurn(es[i].key, es[i].value.name, LastOf(Values(es), i));
    if n > 0 {
      var k, name, last := es[i].key, es[i].value.name, LastOf(Values(es), i);
      var a, b := Back(es, i, n - 1), BackAt(es, i, n - 1);
      FirstBack(es, i, n - 1);
      FirstBackAt(es, i, n - 1);
      Halves(a, b, k, name, last);
    }
  }

  lemma {:induction false} FrontHas(es: Steps, i: nat, n: nat)
    requires i < n <= |es| && LastBefore(Values(es), es[i].value.name, i) == -1
    ensures HasKey(Front(es, i + 1, n), es[i].key)
    decreases n
  {
    var a, b := Front(es, i + 1, n - 1), FrontAt(es, i + 1, n - 1);
    if n - 1 > i {
      FrontHas(es, i, n - 1);
    } else {
      assert b[0].key == es[i].key;
    }
    hide HasKey, FrontAt;
    HasKeyPrefix(a, b, es[i].key);
  }

  /** The purged list and the next form, the kept data, and that entry i is still there. */
  lemma {:induction false} FirstForm(es: Steps, i: nat)
    requires DistinctKeys(es) && i < |es| && LastBefore(Values(es), es[i].value.name, i) == -1
    ensures var k, name, last := es[i].key, es[i].value.name, LastOf(Values(es), i);
            var purged := Purge(Form(es, i), k, name);
            && Form(es, i + 1) == Replace(purged, k, last)
            && (last == es[i].value ==> Form(es, i + 1) == purged)
            && HasKey(Form(es, i + 1), k)
  {
    hide Purge, LastMatch, Replace, HasKey, FrontAt, LastOf;
    FirstFront(es, i, |es|);
    FirstBack(es, i, i);
    Halves(Front(es, i, |es|), Back(es, i, i), es[i].key, es[i].value.name, LastOf(Values(es), i));
    assert BackAt(es, i + 1, i) == [];
    FrontHas(es, i, |es|);
    HasKeyPrefix(Front(es, i + 1, |es|), Back(es, i + 1, i + 1), es[i].key);
  }

  lemma {:induction false} ReplaceHas(es: Steps, k: int, v: Step)
    requires HasKey(Replace(es, k, v), k)
    ensures HasKey(es, k)
  {
  }

  lemma {:induction false} FirstTurn(es: Steps, i: nat)
    requires DistinctKeys(es) && i < |es| && LastBefore(Values(es), es[i].value.name, i) == -1
    ensures InnerResult(Form(es, i), es[i].key, es[i].value.name) == Form(es, i + 1)
  {
    hide Form, Purge, LastMatch, Replace, HasKey;
    var k, name, last := es[i].key, es[i].value.name, LastOf(Values(es), i);
    FirstMatch(es, i, |es|);
    FirstBack(es, i, i);
    Halves(Front(es, i, |es|), Back(es, i, i), k, name, last);
    FormHalves(es, i);
    FirstForm(es, i);
    ReplaceHas(Purge(Form(es, i), k, name), k, last);
  }

  lemma {:induction false} FormHalves(es: Steps, i: nat)
    requires i <= |es|
    ensures Form(es, i) == Front(es, i, |es|) + Back(es, i, i)
  {
  }

  lemma {:induction false} HasKeyPrefix(a: Steps, b: Steps, k: int)
    ensures HasKey(a + b, k) <==> HasKey(a, k) || HasKey(b, k)
  {
    if HasKey(a, k) {
      var m :| 0 <= m < |a| && a[m].key == k;
      assert (a + b)[m].key == k;
    }
    if HasKey(b, k) {
      var m :| 0 <= m < |b| && b[m].key == k;
      assert (a + b)[|a| + m].key == k;
    }
  }

  lemma {:induction false} AgainFront(es: Steps, i: nat, n: nat)
    requires DistinctKeys(es) && i < |es| && n <= |es|
    requires LastBefore(Values(es), es[i].value.name, i) != -1
    ensures var k, name, ss := es[i].key, es[i].value.name, Values(es);
            var b := LastBefore(ss, name, i);
            && Purge(Front(es, i, n), k, name) == Front(es, i + 1, n) && !HasKey(Front(es, i + 1, n), k)
            && LastMatch(Front(es, i, n), k, name)
            == if b < n && LastBefore(ss, name, b) == -1 then Some(LastOf(ss, i)) else None
    decreases n
  {
    hide FrontAt, LastOf, Purge, LastMatch, Replace, HasKey, DistinctKeys, Values;
    EmptyTurn(es[i].key, es[i].value.name, LastOf(Values(es), i));
    if n > 0 {
      var k, name := es[i].key, es[i].value.name;
      var a, b := Front(es, i, n - 1), FrontAt(es, i, n - 1);
      AgainFront(es, i, n - 1);
      AgainFrontAt(es, i, n - 1);
      Halves(a, b, k, name, LastOf(Values(es), i));
    }
  }

  lemma {:induction false} AgainBack(es: Steps, i: nat, n: nat)
    requires DistinctKeys(es) && i < |es| && n <= i
    requires LastBefore(Values(es), es[i].value.name, i) != -1
    ensures var k, name, ss := es[i].key, es[i].value.name, Values(es);
            var b := LastBefore(ss, name, i);
            && Purge(Back(es, i, n), k, name) == Back(es, i + 1, n) && !HasKey(Back(es, i + 1, n), k)
            && LastMatch(Back(es, i, n), k, name)
            == if b < n && LastBefore(ss, name, b) != -1 then Some(LastOf(ss, i)) else None
    decreases n
  {
    hide BackAt, LastOf, Purge, LastMatch, Replace, HasKey, DistinctKeys, Values;
    EmptyTurn(es[i].key, es[i].value.name, LastOf(Values(es), i));
    if n > 0 {
      var k, name := es[i].key, es[i].value.name;
      var a, b := Back(es, i, n - 1), BackAt(es, i, n - 1);
      AgainBack(es, i, n - 1);
      AgainBackAt(es, i, n - 1);
      Halves(a, b, k, name, LastOf(Values(es), i));
    }
  }

  lemma {:induction false} BackAtNew(es: Steps, i: nat)
    requires i < |es| && LastBefore(Values(es), es[i].value.name, i) != -1
    ensures BackAt(es, i + 1, i) == [Entry(es[i].key, LastOf(Values(es), i))]
  {
  }

  lemma {:induction false} BackSplit(es: Steps, i: nat)
    requires i < |es|
    ensures Back(es, i + 1, i + 1) == Back(es, i + 1, i) + BackAt(es, i + 1, i)
  {
    hide BackAt;
  }

  lemma {:induction false} AgainTurn(es: Steps, i: nat)
    requires DistinctKeys(es) && i < |es| && LastBefore(Values(es), es[i].value.name, i) != -1
    ensures InnerResult(Form(es, i), es[i].key, es[i].value.name) == Form(es, i + 1)
  {
    hide Front, Back, BackAt, Purge, LastMatch, HasKey, Values, LastBefore, LastOf, DistinctKeys;
    var k, name, last := es[i].key, es[i].value.name, LastOf(Values(es), i);
    AgainFront(es, i, |es|);
    AgainBack(es, i, i);
    Halves(Front(es, i, |es|), Back(es, i, i), k, name, last);
    HasKeyPrefix(Front(es, i + 1, |es|), Back(es, i + 1, i), k);
    BackAtNew(es, i);
    BackSplit(es, i);
    assert (Front(es, i + 1, |es|) + Back(es, i + 1, i)) + [Entry(k, last)]
        == Front(es, i + 1, |es|) + (Back(es, i + 1, i) + [Entry(k, last)]);
  }

  /** One turn of the outer loop takes the form to the next. */
  lemma {:induction false} OuterTurn(es: Steps, i: nat)
    requires DistinctKeys(es) && i < |es|
    ensures InnerResult(Form(es, i), es[i].key, es[i].value.name) == Form(es, i + 1)
  {
    if LastBefore(Values(es), es[i].value.name, i) == -1 {
      FirstTurn(es, i);
    } else {
      AgainTurn(es, i);
    }
  }

  // ---- The closed form ----

  /** Place j is the last of its name, and the only one of it (once) or one of several (again). */
  predicate IsOnce(ss: seq<Step>, j: nat)
    requires j < |ss|
  {
    LastBefore(ss, ss[j].name, |ss|) == j && LastBefore(ss, ss[j].name, j) == -1
  }

  predicate IsAgain(ss: seq<Step>, j: nat)
    requires j < |ss|
  {
    LastBefore(ss, ss[j].name, |ss|) == j && LastBefore(ss, ss[j].name, j) != -1
  }

  function OncePlaces(ss: seq<Step>, n: nat): (js: seq<nat>)
    requires n <= |ss|
    ensures forall a :: 0 <= a < |js| ==> js[a] < n
  {
    if n == 0 then [] else OncePlaces(ss, n - 1) + if IsOnce(ss, n - 1) then [n - 1] else []
  }

  function AgainPlaces(ss: seq<Step>, n: nat): (js: seq<nat>)
    requires n <= |ss|
    ensures forall a :: 0 <= a < |js| ==> js[a] < n
  {
    if n == 0 then [] else AgainPlaces(ss, n - 1) + if IsAgain(ss, n - 1) then [n - 1] else []
  }

  /** The steps that stay, in order: those of unique name, then the last of each repeated name. */
  function Places(ss: seq<Step>): (js: seq<nat>)
    ensures forall a :: 0 <= a < |js| ==> js[a] < |ss|
  {
    OncePlaces(ss, |ss|) + AgainPlaces(ss, |ss|)
  }

  lemma {:induction false} OnceIn(ss: seq<Step>, n: nat, j: nat)
    requires n <= |ss|
    ensures j in OncePlaces(ss, n) <==> j < n && IsOnce(ss, j)
    decreases n
  {
    hide IsOnce;
    if n > 0 {
      OnceIn(ss, n - 1, j);
    }
  }

  lemma {:induction false} AgainIn(ss: seq<Step>, n: nat, j: nat)
    requires n <= |ss|
    ensures j in AgainPlaces(ss, n) <==> j < n && IsAgain(ss, j)
    decreases n
  {
    hide IsAgain;
    if n > 0 {
      AgainIn(ss, n - 1, j);
    }
  }

  ghost predicate AllDifferent(js: seq<nat>) {
    forall a, b :: 0 <= a < b < |js| ==> js[a] != js[b]
  }

  lemma {:induction false} DifferentAppend(js: seq<nat>, ks: seq<nat>)
    requires AllDifferent(js) && AllDifferent(ks) && forall j :: j in js ==> j !in ks
    ensures AllDifferent(js + ks)
  {
    var all := js + ks;
    forall a, b | 0 <= a < b < |all|
      ensures all[a] != all[b]
    {
      assert a < |js| ==> all[a] == js[a] && js[a] in js;
      assert b >= |js| ==> all[b] == ks[b - |js|] && ks[b - |js|] in ks;
    }
  }

  lemma {:induction false} OnceDifferent(ss: seq<Step>, n: nat)
    requires n <= |ss|
    ensures AllDifferent(OncePlaces(ss, n))
    decreases n
  {
    hide IsOnce, AllDifferent;
    if n == 0 {
      FewDifferent(0);
    } else {
      OnceDifferent(ss, n - 1);
      FewDifferent(n - 1);
      DifferentAppend(OncePlaces(ss, n - 1), if IsOnce(ss, n - 1) then [n - 1] else []);
    }
  }

  lemma {:induction false} AgainDifferent(ss: seq<Step>, n: nat)
    requires n <= |ss|
    ensures AllDifferent(AgainPlaces(ss, n))
    decreases n
  {
    hide IsAgain, AllDifferent;
    if n == 0 {
      FewDifferent(0);
    } else {
      AgainDifferent(ss, n - 1);
      FewDifferent(n - 1);
      DifferentAppend(AgainPlaces(ss, n - 1), if IsAgain(ss, n - 1) then [n - 1] else []);
    }
  }

  lemma {:induction false} FewDifferent(j: nat)
    ensures AllDifferent([]) && AllDifferent([j])
  {
  }

  /** The places that stay are the last places of the names, each once. */
  lemma {:induction false} PlacesAre(ss: seq<Step>)
    ensures forall j: nat :: j in Places(ss) <==> j < |ss| && LastBefore(ss, ss[j].name, |ss|) == j
    ensures AllDifferent(Places(ss))
  {
    hide OncePlaces, AgainPlaces, AllDifferent, LastBefore;
    var once, again := OncePlaces(ss, |ss|), AgainPlaces(ss, |ss|);
    forall j: nat
      ensures j in once + again <==> j < |ss| && LastBefore(ss, ss[j].name, |ss|) == j
      ensures j in once ==> j !in again
    {
      OnceIn(ss, |ss|, j);
      AgainIn(ss, |ss|, j);
    }
    OnceDifferent(ss, |ss|);
    AgainDifferent(ss, |ss|);
    DifferentAppend(once, again);
  }

  function Pick(ss: seq<Step>, js: seq<nat>): (r: seq<Step>)
    requires forall a :: 0 <= a < |js| ==> js[a] < |ss|
    ensures |r| == |js| && forall a :: 0 <= a < |js| ==> r[a] == ss[js[a]]
  {
    seq(|js|, a requires 0 <= a < |js| => ss[js[a]])
  }

  function Unique(ss: seq<Step>): seq<Step> {
    Pick(ss, Places(ss))
  }

  ghost predicate DistinctNames(ss: seq<Step>) {
    forall i, j :: 0 <= i < j < |ss| ==> ss[i].name != ss[j].name
  }

  lemma {:induction false} ValuesAppend(a: Steps, b: Steps)
    ensures Values(a + b) == Values(a) + Values(b)
  {
  }

  lemma {:induction false} PickAppend(ss: seq<Step>, js: seq<nat>, ks: seq<nat>)
    requires forall a :: 0 <= a < |js| ==> js[a] < |ss|
    requires forall a :: 0 <= a < |ks| ==> ks[a] < |ss|
    ensures Pick(ss, js + ks) == Pick(ss, js) + Pick(ss, ks)
  {
  }

  lemma {:induction false} PickFew(ss: seq<Step>, j: nat)
    requires j < |ss|
    ensures Pick(ss, []) == [] && Pick(ss, [j]) == [ss[j]]
  {
  }

  lemma {:induction false} FrontAtLast(es: Steps, j: nat)
    requires j < |es|
    ensures Values(FrontAt(es, |es|, j)) == if IsOnce(Values(es), j) then [es[j].value] else []
  {
    assert LastBefore(Values(es), es[j].value.name, |es|) >= j;
  }

  lemma {:induction false} BackAtLast(es: Steps, j: nat)
    requires j < |es|
    ensures Values(BackAt(es, |es|, j)) == if IsAgain(Values(es), j) then [es[j].value] else []
  {
  }

  lemma {:induction false} FrontValues(es: Steps, n: nat)
    requires n <= |es|
    ensures Values(Front(es, |es|, n)) == Pick(Values(es), OncePlaces(Values(es), n))
    decreases n
  {
    hide FrontAt, IsOnce, Pick;
    if n == 0 {
      assert Pick(Values(es), []) == [];
    } else {
      var ss := Values(es);
      FrontValues(es, n - 1);
      FrontAtLast(es, n - 1);
      ValuesAppend(Front(es, |es|, n - 1), FrontAt(es, |es|, n - 1));
      PickFew(ss, n - 1);
      PickAppend(ss, OncePlaces(ss, n - 1), if IsOnce(ss, n - 1) then [n - 1] else []);
    }
  }

  lemma {:induction false} BackValues(es: Steps, n: nat)
    requires n <= |es|
    ensures Values(Back(es, |es|, n)) == Pick(Values(es), AgainPlaces(Values(es), n))
    decreases n
  {
    hide BackAt, IsAgain, Pick;
    if n == 0 {
      assert Pick(Values(es), []) == [];
    } else {
      var ss := Values(es);
      BackValues(es, n - 1);
      BackAtLast(es, n - 1);
      ValuesAppend(Back(es, |es|, n - 1), BackAt(es, |es|, n - 1));
      PickFew(ss, n - 1);
      PickAppend(ss, AgainPlaces(ss, n - 1), if IsAgain(ss, n - 1) then [n - 1] else []);
    }
  }

  /** The nested loop computes the closed form, whatever the keys. */
  lemma {:induction false} FormIsUnique(es: Steps)
    ensures Values(Form(es, |es|)) == Unique(Values(es))
  {
    hide Front, Back, OncePlaces, AgainPlaces, Pick, Values;
    FrontValues(es, |es|);
    BackValues(es, |es|);
    ValuesAppend(Front(es, |es|, |es|), Back(es, |es|, |es|));
    PickAppend(Values(es), OncePlaces(Values(es), |es|), AgainPlaces(Values(es), |es|));
  }

  /** No name is left twice. */
  lemma {:induction false} UniqueNames(ss: seq<Step>)
    ensures DistinctNames(Unique(ss))
  {
    hide LastBefore, Places;
    var js, r := Places(ss), Unique(ss);
    PlacesAre(ss);
    forall a, b | 0 <= a < b < |r|
      ensures r[a].name != r[b].name
    {
      assert js[a] in js && js[b] in js;
    }
  }

  /** No name is lost, and each name keeps its last data. */
  lemma {:induction false} UniqueKeepsLast(ss: seq<Step>)
    ensures forall s :: s in Unique(ss) ==> exists j :: 0 <= j < |ss| && s == ss[j] && s == LastOf(ss, j)
    ensures forall j :: 0 <= j < |ss| ==> LastOf(ss, j) in Unique(ss)
  {
    hide LastBefore, Places;
    var js, r := Places(ss), Unique(ss);
    PlacesAre(ss);
    forall s | s in r
      ensures exists j :: 0 <= j < |ss| && s == ss[j] && s == LastOf(ss, j)
    {
      var a :| 0 <= a < |r| && r[a] == s;
      assert js[a] in js;
      assert s == ss[js[a]] == LastOf(ss, js[a]);
    }
    forall j | 0 <= j < |ss|
      ensures LastOf(ss, j) in r
    {
      var m := LastBefore(ss, ss[j].name, |ss|);
      assert m in js;
      var a :| 0 <= a < |js| && js[a] == m;
      assert r[a] == LastOf(ss, j);
    }
  }

  lemma {:induction false} OnlyPlace(ss: seq<Step>, j: nat, n: nat)
    requires DistinctNames(ss) && j < |ss| && n <= |ss|
    ensures LastBefore(ss, ss[j].name, n) == if j < n then j else -1
  {
  }

  lemma {:induction false} AllOnce(ss: seq<Step>, n: nat)
    requires DistinctNames(ss) && n <= |ss|
    ensures AgainPlaces(ss, n) == [] && |OncePlaces(ss, n)| == n
    ensures forall a :: 0 <= a < n ==> OncePlaces(ss, n)[a] == a
    decreases n
  {
    hide LastBefore, DistinctNames;
    if n > 0 {
      AllOnce(ss, n - 1);
      OnlyPlace(ss, n - 1, n - 1);
      OnlyPlace(ss, n - 1, |ss|);
    }
  }

  ghost predicate Ascending(js: seq<nat>) {
    forall a, b :: 0 <= a < b < |js| ==> js[a] < js[b]
  }

  lemma {:induction false} AscendingSnoc(js: seq<nat>, n: nat)
    requires Ascending(js) && forall a :: 0 <= a < |js| ==> js[a] < n
    ensures Ascending(js + [n])
  {
  }

  lemma {:induction false} PlacesAscend(ss: seq<Step>, n: nat)
    requires n <= |ss|
    ensures Ascending(OncePlaces(ss, n)) && Ascending(AgainPlaces(ss, n))
    decreases n
  {
    hide IsOnce, IsAgain, Ascending;
    if n == 0 {
      EmptyAscends();
    } else {
      PlacesAscend(ss, n - 1);
      AscendingSnoc(OncePlaces(ss, n - 1), n - 1);
      AscendingSnoc(AgainPlaces(ss, n - 1), n - 1);
      assert OncePlaces(ss, n - 1) + [] == OncePlaces(ss, n - 1);
      assert AgainPlaces(ss, n - 1) + [] == AgainPlaces(ss, n - 1);
    }
  }

  lemma {:induction false} EmptyAscends()
    ensures Ascending([])
  {
  }

  /** The closed form in terms of the list alone: first the places of unique name, in order; then, in
      order, the last places of the repeated names; and every last place is there. */
  lemma {:induction false} UniqueShape(ss: seq<Step>) returns (js: seq<nat>, m: nat, earlier: seq<nat>)
    ensures |js| == |Unique(ss)| && m <= |js|
    ensures forall a :: 0 <= a < |js| ==> js[a] < |ss| && Unique(ss)[a] == ss[js[a]]
    ensures forall a, b :: (0 <= a < b < m || m <= a < b < |js|) ==> js[a] < js[b]
    ensures forall a, i :: 0 <= a < m && 0 <= i < |ss| && ss[i].name == ss[js[a]].name ==> i == js[a]
    ensures forall a, i :: m <= a < |js| && js[a] < i < |ss| ==> ss[i].name != ss[js[a]].name
    ensures |earlier| == |js|
    ensures forall a :: m <= a < |js| ==> earlier[a] < js[a] && ss[earlier[a]].name == ss[js[a]].name
    ensures forall j: nat :: j < |ss| && (forall i :: j < i < |ss| ==> ss[i].name != ss[j].name) ==> j in js
  {
    hide OncePlaces, AgainPlaces;
    var once, again := OncePlaces(ss, |ss|), AgainPlaces(ss, |ss|);
    js, m := once + again, |once|;
    PlacesAscend(ss, |ss|);
    forall a | 0 <= a < |js|
      ensures if a < m then js[a] == once[a] && IsOnce(ss, js[a]) else js[a] == again[a - m] && IsAgain(ss, js[a])
    {
      OnceIn(ss, |ss|, js[a]);
      AgainIn(ss, |ss|, js[a]);
      assert if a < m then js[a] in once else again[a - m] in again;
    }
    AllLastPlaces(ss);
    OrderedHalves(once, again);
    earlier := NamesOf(ss, js, m);
  }

  lemma {:induction false} AllLastPlaces(ss: seq<Step>)
    ensures forall j: nat :: j < |ss| && (forall i :: j < i < |ss| ==> ss[i].name != ss[j].name) ==> j in Places(ss)
  {
    hide Places;
    PlacesAre(ss);
  }

  lemma {:induction false} OrderedHalves(once: seq<nat>, again: seq<nat>)
    requires Ascending(once) && Ascending(again)
    ensures var js, m := once + again, |once|;
            forall a, b :: (0 <= a < b < m || m <= a < b < |js|) ==> js[a] < js[b]
  {
  }

  lemma {:induction false} NamesOf(ss: seq<Step>, js: seq<nat>, m: nat) returns (earlier: seq<nat>)
    requires m <= |js|
    requires forall a :: 0 <= a < |js| ==> js[a] < |ss| && if a < m then IsOnce(ss, js[a]) else IsAgain(ss, js[a])
    ensures forall a, i :: 0 <= a < m && 0 <= i < |ss| && ss[i].name == ss[js[a]].name ==> i == js[a]
    ensures forall a, i :: m <= a < |js| && js[a] < i < |ss| ==> ss[i].name != ss[js[a]].name
    ensures |earlier| == |js|
    ensures forall a :: m <= a < |js| ==> earlier[a] < js[a] && ss[earlier[a]].name == ss[js[a]].name
  {
    forall a, i | 0 <= a < m && 0 <= i < |ss| && ss[i].name == ss[js[a]].name
      ensures i == js[a]
    {
      assert IsOnce(ss, js[a]);
    }
    forall a, i | m <= a < |js| && js[a] < i < |ss|
      ensures ss[i].name != ss[js[a]].name
    {
      assert IsAgain(ss, js[a]);
    }
    earlier := seq(|js|, a requires 0 <= a < |js| => if a < m then 0 else Before(ss, js[a]));
  }

  /** The place of the same name before j. */
  function Before(ss: seq<Step>, j: nat): (i: nat)
    requires j < |ss| && IsAgain(ss, j)
    ensures i < j && ss[i].name == ss[j].name
  {
    LastBefore(ss, ss[j].name, j)
  }

  /** On a list of distinct names the pass changes nothing. */
  lemma {:induction false} UniqueIdentity(ss: seq<Step>)
    requires DistinctNames(ss)
    ensures Unique(ss) == ss
  {
    AllOnce(ss, |ss|);
  }

  lemma {:induction false} UniqueIdempotent(ss: seq<Step>)
    ensures Unique(Unique(ss)) == Unique(ss)
  {
    UniqueNames(ss);
    UniqueIdentity(Unique(ss));
  }
}
