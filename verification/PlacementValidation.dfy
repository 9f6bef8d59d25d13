/** The two placement passes, over the effective surface plan and over the stored
    configuration: nested loops with a set of placed instances, which decide a permutation. */
module PlacementValidation {
  type Id = string

  datatype Layout = Layout(start: seq<Id>, center: seq<Id>, end: seq<Id>)

  datatype Finding =
    | UnknownInstance(id: Id)
    | DuplicatePlacement(id: Id)
    | MainLayoutRequired(id: Id)
    | UnplacedInstance(id: Id)

  function InLayout(layout: Layout): seq<Id> {
    layout.start + layout.center + layout.end
  }

  /** All placements of all bars, bar by bar in the given order. */
  ghost function Placements(bars: map<string, Layout>, order: seq<string>): seq<Id>
    requires forall k <- order :: k in bars
  {
    if order == [] then []
    else Placements(bars, order[..|order| - 1]) + InLayout(bars[order[|order| - 1]])
  }

  ghost predicate Enumerates(order: seq<string>, keys: set<string>) {
    && (forall k :: k in order <==> k in keys)
    && forall i, j | 0 <= i < j < |order| :: order[i] != order[j]
  }

  /** Every instance stands in exactly one place, and nothing else stands anywhere. */
  ghost predicate IsPermutation(placements: seq<Id>, instances: set<Id>) {
    multiset(placements) == multiset(instances)
  }

  // ---- What the findings of a pass mean ----

  /** The findings about placements, in the order they are met. */
  function FindingsOf(placements: seq<Id>, known: set<Id>): seq<Finding> {
    if placements == [] then []
    else
      var before, id := placements[..|placements| - 1], placements[|placements| - 1];
      FindingsOf(before, known)
      + (if id !in known then [UnknownInstance(id)] else if id in before then [DuplicatePlacement(id)] else [])
  }

  lemma {:induction false} CleanMeansDistinct(placements: seq<Id>, known: set<Id>)
    ensures FindingsOf(placements, known) == []
        <==> (forall id :: multiset(placements)[id] <= (if id in known then 1 else 0))
  {
    if placements != [] {
      var before, last := placements[..|placements| - 1], placements[|placements| - 1];
      CleanMeansDistinct(before, known);
      assert placements == before + [last];
      assert multiset(placements)[last] == multiset(before)[last] + 1;
      assert forall id | id != last :: multiset(placements)[id] == multiset(before)[id];
    }
  }

  /** No finding about a placement, and nothing left unplaced, exactly for a permutation. */
  lemma CleanMeansPermutation(placements: seq<Id>, instances: set<Id>)
    ensures FindingsOf(placements, instances) == [] && (forall id <- instances :: id in placements)
        <==> IsPermutation(placements, instances)
  {
    CleanMeansDistinct(placements, instances);
    if IsPermutation(placements, instances) {
      forall id
        ensures multiset(placements)[id] <= (if id in instances then 1 else 0)
        ensures id in instances ==> id in placements
      {
        assert multiset(placements)[id] == multiset(instances)[id];
      }
    } else if FindingsOf(placements, instances) == [] && forall id <- instances :: id in placements {
      forall id
        ensures multiset(placements)[id] == multiset(instances)[id]
      {
        if id in instances {
          assert id in multiset(placements);
        }
      }
    }
  }

  lemma FindingsAppend(placements: seq<Id>, id: Id, known: set<Id>)
    ensures FindingsOf(placements + [id], known) == FindingsOf(placements, known)
      + (if id !in known then [UnknownInstance(id)] else if id in placements then [DuplicatePlacement(id)] else [])
  {
    assert (placements + [id])[..|placements|] == placements;
  }

  // ---- The surface plan ----

  class Placed {
    var findings: seq<Finding>
    var placed: set<Id>

    constructor ()
      ensures findings == [] && placed == {}
    {
      findings, placed := [], {};
    }

    /** One region; `done` are the placements before it. Only known instances are marked. */
    method PlanRegion(instances: set<Id>, region: seq<Id>, ghost done: seq<Id>)
      requires findings == FindingsOf(done, instances) && placed == instances * (set id | id in done)
      modifies this
      ensures findings == FindingsOf(done + region, instances)
      ensures placed == instances * (set id | id in done + region)
    {
      assert done + region[..0] == done;
      for index := 0 to |region|
        invariant findings == FindingsOf(done + region[..index], instances)
        invariant placed == instances * (set id | id in done + region[..index])
      {
        var id := region[index];
        FindingsAppend(done + region[..index], id, instances);
        assert done + region[..index + 1] == done + region[..index] + [id];
        if id !in instances {
          findings := findings + [UnknownInstance(id)];
        } else if id in placed {
          findings := findings + [DuplicatePlacement(id)];
        } else {
          placed := placed + {id};
        }
      }
      assert region[..|region|] == region;
    }

    method PlanLayout(instances: set<Id>, layout: Layout, ghost done: seq<Id>)
      requires findings == FindingsOf(done, instances) && placed == instances * (set id | id in done)
      modifies this
      ensures findings == FindingsOf(done + InLayout(layout), instances)
      ensures placed == instances * (set id | id in done + InLayout(layout))
    {
      hide FindingsOf;
      PlanRegion(instances, layout.start, done);
      PlanRegion(instances, layout.center, done + layout.start);
      PlanRegion(instances, layout.end, done + layout.start + layout.center);
      assert done + layout.start + layout.center + layout.end == done + InLayout(layout);
    }

    /** One region of a stored configuration: every placement is marked, an instance whose key
        is not a proper identifier counts as unknown, and outside the main layout a widget that
        belongs there is reported. */
    method ConfigurationRegion(known: set<Id>, misfits: set<Id>, region: seq<Id>, ghost done: seq<Id>, ghost fit: bool)
      requires findings == [] <==> FindingsOf(done, known) == [] && fit
      requires placed == set id | id in done
      modifies this
      ensures findings == [] <==> FindingsOf(done + region, known) == [] && fit && misfits !! (set id | id in region)
      ensures placed == set id | id in done + region
    {
      hide FindingsOf;
      assert done + region[..0] == done;
      for index := 0 to |region|
        invariant findings == []
          <==> FindingsOf(done + region[..index], known) == [] && fit && misfits !! (set id | id in region[..index])
        invariant placed == set id | id in done + region[..index]
      {
        var id := region[index];
        FindingsAppend(done + region[..index], id, known);
        assert done + region[..index + 1] == done + region[..index] + [id];
        assert region[..index + 1] == region[..index] + [id];
        if id !in known {
          findings := findings + [UnknownInstance(id)];
        } else if id in placed {
          findings := findings + [DuplicatePlacement(id)];
        } else if id in misfits {
          findings := findings + [MainLayoutRequired(id)];
        }
        placed := placed + {id};
      }
      assert region[..|region|] == region;
    }

    method ConfigurationLayout(known: set<Id>, misfits: set<Id>, layout: Layout, ghost done: seq<Id>, ghost fit: bool)
      requires findings == [] <==> FindingsOf(done, known) == [] && fit
      requires placed == set id | id in done
      modifies this
      ensures findings == []
        <==> FindingsOf(done + InLayout(layout), known) == [] && fit && misfits !! (set id | id in InLayout(layout))
      ensures placed == set id | id in done + InLayout(layout)
    {
      hide FindingsOf;
      ConfigurationRegion(known, misfits, layout.start, done, fit);
      ghost var fit1 := fit && misfits !! (set id | id in layout.start);
      ConfigurationRegion(known, misfits, layout.center, done + layout.start, fit1);
      ghost var fit2 := fit1 && misfits !! (set id | id in layout.center);
      ConfigurationRegion(known, misfits, layout.end, done + layout.start + layout.center, fit2);
      assert done + layout.start + layout.center + layout.end == done + InLayout(layout);
    }

    method Unplaced(instances: set<Id>)
      modifies this`findings
      ensures findings == old(findings) <==> instances <= placed
      ensures |findings| >= |old(findings)|
    {
      var todo := instances;
      while todo != {}
        invariant todo <= instances && |findings| >= |old(findings)|
        invariant findings == old(findings) <==> instances - todo <= placed
        invariant findings != old(findings) ==> |findings| > |old(findings)|
      {
        var id :| id in todo;
        todo := todo - {id};
        if id !in placed {
          findings := findings + [UnplacedInstance(id)];
        }
      }
    }
  }

  method ValidateRelationships(bars: map<string, Layout>, instances: set<Id>, order: seq<string>)
    returns (findings: seq<Finding>)
    requires Enumerates(order, bars.Keys)
    ensures findings == [] <==> IsPermutation(Placements(bars, order), instances)
  {
    hide FindingsOf, IsPermutation;
    var pass := new Placed();
    ghost var done: seq<Id> := [];
    NothingFound(instances);
    for index := 0 to |order|
      invariant done == Placements(bars, order[..index])
      invariant pass.findings == FindingsOf(done, instances) && pass.placed == instances * (set id | id in done)
    {
      assert order[..index + 1][..index] == order[..index];
      pass.PlanLayout(instances, bars[order[index]], done);
      done := done + InLayout(bars[order[index]]);
    }
    assert order[..|order|] == order;
    CleanMeansPermutation(done, instances);
    pass.Unplaced(instances);
    findings := pass.findings;
  }

  /** Widgets that belong in the main layout stand in no other. */
  ghost predicate Fitting(bars: map<string, Layout>, order: seq<string>, mainOnly: set<Id>) {
    forall key | key in order && key in bars && key != "main" :: mainOnly !! (set id | id in InLayout(bars[key]))
  }

  /** The configuration pass finds nothing exactly for a permutation of instances that all have
      proper keys, with the widgets of the main layout nowhere else. */
  method ValidatePlacements(bars: map<string, Layout>, instances: set<Id>, proper: Id -> bool, mainOnly: set<Id>,
                            order: seq<string>)
    returns (findings: seq<Finding>)
    requires Enumerates(order, bars.Keys)
    ensures findings == []
      <==> (IsPermutation(Placements(bars, order), instances)
            && (forall id <- instances :: proper(id))
            && Fitting(bars, order, mainOnly))
  {
    hide FindingsOf, IsPermutation;
    var pass := new Placed();
    var known := set id | id in instances && proper(id);
    ghost var done: seq<Id> := [];
    NothingFound(known);
    for index := 0 to |order|
      invariant done == Placements(bars, order[..index])
      invariant pass.findings == [] <==> FindingsOf(done, known) == [] && Fitting(bars, order[..index], mainOnly)
      invariant pass.placed == set id | id in done
    {
      var key := order[index];
      assert order[..index + 1][..index] == order[..index];
      assert order[..index + 1] == order[..index] + [key];
      ghost var fit := Fitting(bars, order[..index], mainOnly);
      pass.ConfigurationLayout(known, if key == "main" then {} else mainOnly, bars[key], done, fit);
      FittingAppend(bars, order[..index], key, mainOnly);
      done := done + InLayout(bars[key]);
    }
    assert order[..|order|] == order;
    ImproperIsUnknown(done, known, instances);
    pass.Unplaced(instances);
    findings := pass.findings;
  }

  lemma NothingFound(known: set<Id>)
    ensures FindingsOf([], known) == []
  {
  }

  lemma FittingAppend(bars: map<string, Layout>, order: seq<string>, key: string, mainOnly: set<Id>)
    requires key in bars
    ensures Fitting(bars, order + [key], mainOnly)
      <==> Fitting(bars, order, mainOnly) && (key == "main" || mainOnly !! (set id | id in InLayout(bars[key])))
  {
    assert forall k :: k in order + [key] <==> k in order || k == key;
  }

  lemma ImproperIsUnknown(placements: seq<Id>, known: set<Id>, instances: set<Id>)
    requires known <= instances
    ensures FindingsOf(placements, known) == [] && (forall id <- instances :: id in placements)
        <==> IsPermutation(placements, instances) && known == instances
  {
    CleanMeansPermutation(placements, known);
    CleanMeansDistinct(placements, known);
    if FindingsOf(placements, known) == [] && forall id <- instances :: id in placements {
      forall id | id in instances
        ensures id in known
      {
        assert id in multiset(placements);
      }
    }
  }

  /** The order in which the bars are visited does not matter. */
  lemma {:induction false} OrderIsIrrelevant(bars: map<string, Layout>, a: seq<string>, b: seq<string>,
                                             keys: set<string>)
    requires keys <= bars.Keys && Enumerates(a, keys) && Enumerates(b, keys)
    ensures multiset(Placements(bars, a)) == multiset(Placements(bars, b))
    decreases |a|
  {
    if a == [] {
      FirstIsKey(b, keys);
    } else {
      var last := a[|a| - 1];
      assert last in b;
      var i :| 0 <= i < |b| && b[i] == last;
      var front, rest := a[..|a| - 1], b[..i] + b[i + 1..];
      PlacementsWithout(bars, b, i);
      RestEnumerates(a, |a| - 1, keys);
      RestEnumerates(b, i, keys);
      assert a[..|a| - 1] + a[|a|..] == front;
      OrderIsIrrelevant(bars, front, rest, keys - {last});
      assert Placements(bars, a) == Placements(bars, front) + InLayout(bars[last]);
    }
  }

  lemma FirstIsKey(order: seq<string>, keys: set<string>)
    requires Enumerates(order, keys)
    ensures order != [] ==> order[0] in keys
  {
  }

  lemma RestEnumerates(order: seq<string>, i: nat, keys: set<string>)
    requires Enumerates(order, keys) && i < |order|
    ensures Enumerates(order[..i] + order[i + 1..], keys - {order[i]})
  {
    var rest := order[..i] + order[i + 1..];
    forall k
      ensures k in rest <==> k in keys - {order[i]}
    {
      if k in keys - {order[i]} {
        var j :| 0 <= j < |order| && order[j] == k;
        assert rest[if j < i then j else j - 1] == k;
      }
    }
  }

  lemma {:induction false} PlacementsWithout(bars: map<string, Layout>, b: seq<string>, i: nat)
    requires i < |b| && forall k <- b :: k in bars
    ensures multiset(Placements(bars, b))
         == multiset(Placements(bars, b[..i] + b[i + 1..])) + multiset(InLayout(bars[b[i]]))
    decreases |b|
  {
    hide InLayout;
    var n := |b| - 1;
    var front, rest := b[..n], b[..i] + b[i + 1..];
    assert b == front + [b[n]];
    PlacementsAppend(bars, front, b[n]);
    if i == n {
      assert rest == front;
    } else {
      var less := front[..i] + front[i + 1..];
      PlacementsWithout(bars, front, i);
      assert rest == less + [b[n]];
      PlacementsAppend(bars, less, b[n]);
      assert front[i] == b[i];
    }
  }

  lemma PlacementsAppend(bars: map<string, Layout>, front: seq<string>, key: string)
    requires key in bars && forall k <- front :: k in bars
    ensures multiset(Placements(bars, front + [key]))
         == multiset(Placements(bars, front)) + multiset(InLayout(bars[key]))
  {
    assert (front + [key])[..|front|] == front;
  }
}
