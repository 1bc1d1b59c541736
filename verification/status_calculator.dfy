/** The server's evaluation calculator: per-competence status, global statistics,
    and filtering by status. */
module StatusCalculator {
  import opened Wrappers
  import opened Domain

  /** What `calculerStatutCompetence` returns for one list of sub-items. */
  datatype Evaluation = Evaluation(validees: nat, nonValidees: nat, total: nat, statut: string, pourcentage: Option<int>)

  /** The four counters folded over a list of competences. */
  datatype Stats = Stats(totalCompetences: nat, competencesValidees: nat, totalSousCompetences: nat, sousCompetencesValidees: nat)
  {
    /** Counter-wise sum. */
    function Plus(other: Stats): Stats {
      Stats(totalCompetences + other.totalCompetences,
            competencesValidees + other.competencesValidees,
            totalSousCompetences + other.totalSousCompetences,
            sousCompetencesValidees + other.sousCompetencesValidees)
    }
  }

  /** The initial value of the reduction. */
  const ZeroStats := Stats(0, 0, 0, 0)

  /** `sousCompetences.filter(sc => sc.validee)`: the validated sub-items, in order. */
  function ValidatedOnly(s: seq<SubItem>): (r: seq<SubItem>)
    ensures |r| <= |s|
    ensures forall x :: x in r <==> x in s && x.validee
  {
    if |s| == 0 then [] else (if s[0].validee then [s[0]] else []) + ValidatedOnly(s[1..])
  }

  /** The positions of `s` that hold a validated sub-item: an independent reference for the count. */
  ghost function ValidatedPositions(s: seq<SubItem>): set<int> {
    set j | 0 <= j < |s| && s[j].validee
  }

  /** Filtering distributes over concatenation. */
  lemma {:induction false} ValidatedOnlyConcat(a: seq<SubItem>, b: seq<SubItem>)
    ensures ValidatedOnly(a + b) == ValidatedOnly(a) + ValidatedOnly(b)
  {
    if |a| == 0 {
      assert a + b == b;
    } else {
      assert (a + b)[1..] == a[1..] + b;
      ValidatedOnlyConcat(a[1..], b);
    }
  }

  /** Appending one sub-item adds its position to the validated positions exactly when it is validated. */
  lemma PositionsSnoc(s: seq<SubItem>, x: SubItem)
    ensures ValidatedPositions(s + [x]) == ValidatedPositions(s) + (if x.validee then {|s|} else {})
  {
    var t := s + [x];
    forall j | 0 <= j < |s| ensures t[j] == s[j] { }
    assert t[|s|] == x;
  }

  /** The number of validated sub-items is the number of positions holding one. */
  lemma {:induction false} ValidatedCountIsPositionCount(s: seq<SubItem>)
    ensures |ValidatedOnly(s)| == |ValidatedPositions(s)|
    decreases |s|
  {
    if |s| > 0 {
      var n := |s| - 1;
      var init, x := s[..n], s[n];
      assert s == init + [x];
      ValidatedOnlyConcat(init, [x]);
      ValidatedCountIsPositionCount(init);
      PositionsSnoc(init, x);
      assert [x][1..] == [];
      if x.validee {
        assert n !in ValidatedPositions(init);
        assert |ValidatedPositions(s)| == |ValidatedPositions(init)| + 1;
        assert |ValidatedOnly(s)| == |ValidatedOnly(init)| + 1;
      } else {
        assert ValidatedPositions(s) == ValidatedPositions(init);
        assert ValidatedOnly(s) == ValidatedOnly(init) + [];
      }
    }
  }

  /** Scaling both sides of `a <= b` by a non-negative factor. */
  lemma MulMonotone(a: int, b: int, d: int)
    requires a <= b && 0 <= d
    ensures a * d <= b * d
  {
  }

  /** The quotient `(200 * v + t) / (2 * t)` is `100 * v / t` rounded half up, and a
      percentage when `v <= t`. */
  lemma RoundingBounds(v: nat, t: nat)
    requires t > 0
    ensures var q := (200 * v + t) / (2 * t);
      2 * t * q - t <= 200 * v < 2 * t * q + t && (v <= t ==> 0 <= q <= 100)
  {
    var d := 2 * t;
    var q := (200 * v + t) / d;
    assert q * d <= 200 * v + t < q * d + d;
    assert 2 * t * q == q * d;
    if q < 0 {
      MulMonotone(q, -1, d);
    }
    if v <= t && q > 100 {
      MulMonotone(101, q, d);
    }
  }

  /** `Math.round((v / t) * 100)` on exact rationals, rounding halves upwards; there is no
      number when `t == 0` (the division yields NaN). */
  function RoundedPercentage(v: nat, t: nat): (p: Option<int>)
    ensures p.None? <==> t == 0
    ensures p.Some? ==> 2 * t * p.value - t <= 200 * v < 2 * t * p.value + t
    ensures p.Some? && v <= t ==> 0 <= p.value <= 100
  {
    if t == 0 then None
    else
      RoundingBounds(v, t);
      Some((200 * v + t) / (2 * t))
  }

  /** `calculerStatutCompetence`: counts validated and non-validated sub-items and applies
      the threshold rule, where a tie (including the empty list) is `validée`. */
  function CalculerStatutCompetence(s: seq<SubItem>): (e: Evaluation)
    ensures e.validees + e.nonValidees == e.total == |s|
    ensures e.statut == VALIDEE <==> 2 * e.validees >= |s|
    ensures e.statut == NON_VALIDEE <==> 2 * e.validees < |s|
    ensures e.pourcentage.None? <==> |s| == 0
  {
    StatusLabelsDiffer();
    var validees := |ValidatedOnly(s)|;
    var total := |s|;
    var nonValidees := total - validees;
    Evaluation(validees, nonValidees, total,
               if validees >= nonValidees then VALIDEE else NON_VALIDEE,
               RoundedPercentage(validees, total))
  }

  /** `validees` is the number of positions holding a validated sub-item. */
  lemma EvaluationCountsPositions(s: seq<SubItem>)
    ensures CalculerStatutCompetence(s).validees == |ValidatedPositions(s)|
  {
    ValidatedCountIsPositionCount(s);
  }

  /** For a non-empty list the percentage lies in 0..100 and is `100 * validees / total`
      rounded half up. */
  lemma EvaluationPercentage(s: seq<SubItem>)
    requires |s| > 0
    ensures var e := CalculerStatutCompetence(s);
      && e.pourcentage.Some?
      && 0 <= e.pourcentage.value <= 100
      && 2 * |s| * e.pourcentage.value - |s| <= 200 * e.validees < 2 * |s| * e.pourcentage.value + |s|
  {
  }

  /** The computed status of one competence. */
  function StatutOf(c: Competence): string {
    CalculerStatutCompetence(c.sousCompetences).statut
  }

  /** The reducer callback of `calculerStatistiquesGlobales`. */
  function Accumulate(stats: Stats, c: Competence): Stats {
    var e := CalculerStatutCompetence(c.sousCompetences);
    Stats(stats.totalCompetences + 1,
          stats.competencesValidees + (if e.statut == VALIDEE then 1 else 0),
          stats.totalSousCompetences + e.total,
          stats.sousCompetencesValidees + e.validees)
  }

  /** The total number of sub-items across a list of competences. */
  function SumLengths(cs: seq<Competence>): nat {
    if |cs| == 0 then 0 else |cs[0].sousCompetences| + SumLengths(cs[1..])
  }

  /** `Array.prototype.reduce` with `Accumulate`, from the left, starting at `acc`. */
  function Reduce(acc: Stats, cs: seq<Competence>): (r: Stats)
    ensures r.totalCompetences == acc.totalCompetences + |cs|
    ensures acc.competencesValidees <= r.competencesValidees <= acc.competencesValidees + |cs|
    ensures r.totalSousCompetences == acc.totalSousCompetences + SumLengths(cs)
    ensures acc.sousCompetencesValidees <= r.sousCompetencesValidees
    ensures r.sousCompetencesValidees - acc.sousCompetencesValidees <= r.totalSousCompetences - acc.totalSousCompetences
    decreases |cs|
  {
    if |cs| == 0 then acc else Reduce(Accumulate(acc, cs[0]), cs[1..])
  }

  /** The number of validated sub-items, counted one element at a time: an independent
      reference for the filtered length. */
  function CountValidated(s: seq<SubItem>): nat {
    if |s| == 0 then 0 else (if s[0].validee then 1 else 0) + CountValidated(s[1..])
  }

  /** The filtered length is the element-by-element count. */
  lemma {:induction false} ValidatedOnlyCounts(s: seq<SubItem>)
    ensures |ValidatedOnly(s)| == CountValidated(s)
    decreases |s|
  {
    if |s| > 0 {
      ValidatedOnlyCounts(s[1..]);
    }
  }

  /** The number of validated sub-items summed over a list of competences. */
  function SumValidated(cs: seq<Competence>): nat {
    if |cs| == 0 then 0 else CountValidated(cs[0].sousCompetences) + SumValidated(cs[1..])
  }

  /** The fold adds every competence's validated sub-items to the counter it starts from. */
  lemma {:induction false} ReduceCountsValidated(acc: Stats, cs: seq<Competence>)
    ensures Reduce(acc, cs).sousCompetencesValidees == acc.sousCompetencesValidees + SumValidated(cs)
    decreases |cs|
  {
    if |cs| > 0 {
      ValidatedOnlyCounts(cs[0].sousCompetences);
      ReduceCountsValidated(Accumulate(acc, cs[0]), cs[1..]);
    }
  }

  /** `calculerStatistiquesGlobales`: the four global counters of a list of competences. */
  function CalculerStatistiquesGlobales(cs: seq<Competence>): (st: Stats)
    ensures st.totalCompetences == |cs|
    ensures st.totalSousCompetences == SumLengths(cs)
    ensures st.sousCompetencesValidees == SumValidated(cs)
    ensures st.competencesValidees <= st.totalCompetences
    ensures st.sousCompetencesValidees <= st.totalSousCompetences
  {
    ReduceCountsValidated(ZeroStats, cs);
    Reduce(ZeroStats, cs)
  }

  /** Reducing from any start value adds that value to the reduction from zero. */
  lemma {:induction false} ReduceShift(acc: Stats, cs: seq<Competence>)
    ensures Reduce(acc, cs) == acc.Plus(Reduce(ZeroStats, cs))
    decreases |cs|
  {
    if |cs| > 0 {
      var one := Accumulate(ZeroStats, cs[0]);
      assert Accumulate(acc, cs[0]) == acc.Plus(one);
      ReduceShift(Accumulate(acc, cs[0]), cs[1..]);
      ReduceShift(one, cs[1..]);
    }
  }

  /** Reducing a concatenation reduces the first part, then continues with the second. */
  lemma {:induction false} ReduceConcat(acc: Stats, a: seq<Competence>, b: seq<Competence>)
    ensures Reduce(acc, a + b) == Reduce(Reduce(acc, a), b)
    decreases |a|
  {
    if |a| == 0 {
      assert a + b == b;
    } else {
      assert (a + b)[0] == a[0];
      assert (a + b)[1..] == a[1..] + b;
      ReduceConcat(Accumulate(acc, a[0]), a[1..], b);
    }
  }

  /** Global statistics are additive over concatenation. */
  lemma StatsConcat(a: seq<Competence>, b: seq<Competence>)
    ensures CalculerStatistiquesGlobales(a + b) == CalculerStatistiquesGlobales(a).Plus(CalculerStatistiquesGlobales(b))
  {
    ReduceConcat(ZeroStats, a, b);
    ReduceShift(Reduce(ZeroStats, a), b);
  }

  /** Taking one competence out of the middle of a list takes its contribution out of the statistics. */
  lemma StatsAroundPivot(b: seq<Competence>, k: int)
    requires 0 <= k < |b|
    ensures CalculerStatistiquesGlobales(b)
         == CalculerStatistiquesGlobales([b[k]]).Plus(CalculerStatistiquesGlobales(b[..k] + b[k + 1..]))
  {
    var pre, suf := b[..k], b[k + 1..];
    assert b == (pre + [b[k]]) + suf;
    StatsConcat(pre + [b[k]], suf);
    StatsConcat(pre, [b[k]]);
    StatsConcat(pre, suf);
  }

  /** Removing matching elements from two permutations of each other leaves permutations. */
  lemma MultisetRemove(a: seq<Competence>, b: seq<Competence>, k: int)
    requires |a| > 0 && 0 <= k < |b| && b[k] == a[0]
    requires multiset(a) == multiset(b)
    ensures multiset(a[1..]) == multiset(b[..k] + b[k + 1..])
  {
    var x := a[0];
    assert a == [x] + a[1..];
    assert b == b[..k] + [x] + b[k + 1..];
    assert multiset(b) == multiset(b[..k]) + multiset{x} + multiset(b[k + 1..]);
    assert multiset(a[1..]) == multiset(a) - multiset{x};
  }

  /** Global statistics do not depend on the order of the competences. */
  lemma {:induction false} StatsPermutation(a: seq<Competence>, b: seq<Competence>)
    requires multiset(a) == multiset(b)
    ensures CalculerStatistiquesGlobales(a) == CalculerStatistiquesGlobales(b)
    decreases |a|
  {
    if |a| > 0 {
      var x := a[0];
      assert x in multiset(b);
      var k :| 0 <= k < |b| && b[k] == x;
      MultisetRemove(a, b, k);
      StatsPermutation(a[1..], b[..k] + b[k + 1..]);
      StatsAroundPivot(b, k);
      assert a == [x] + a[1..];
      StatsConcat([x], a[1..]);
    }
  }

  /** `filtrerParStatut`: the competences whose computed status equals `statut`, in order. */
  function FiltrerParStatut(cs: seq<Competence>, statut: string): (r: seq<Competence>)
    ensures |r| <= |cs|
    ensures forall c :: c in r <==> c in cs && StatutOf(c) == statut
  {
    if |cs| == 0 then []
    else (if StatutOf(cs[0]) == statut then [cs[0]] else []) + FiltrerParStatut(cs[1..], statut)
  }

  /** Filtering preserves order: it distributes over concatenation. */
  lemma {:induction false} FilterConcat(a: seq<Competence>, b: seq<Competence>, statut: string)
    ensures FiltrerParStatut(a + b, statut) == FiltrerParStatut(a, statut) + FiltrerParStatut(b, statut)
    decreases |a|
  {
    if |a| == 0 {
      assert a + b == b;
    } else {
      assert (a + b)[1..] == a[1..] + b;
      FilterConcat(a[1..], b, statut);
    }
  }

  /** The number of competences listed by status `validée` is the global `competencesValidees`. */
  lemma {:induction false} FilterCountsValidated(cs: seq<Competence>)
    ensures |FiltrerParStatut(cs, VALIDEE)| == CalculerStatistiquesGlobales(cs).competencesValidees
    decreases |cs|
  {
    if |cs| > 0 {
      ReduceShift(Accumulate(ZeroStats, cs[0]), cs[1..]);
      FilterCountsValidated(cs[1..]);
    }
  }

  /** Every competence has one of the two status labels. */
  lemma StatutIsLabel(c: Competence)
    ensures StatutOf(c) == VALIDEE || StatutOf(c) == NON_VALIDEE
  {
  }

  /** The multiset of a list with one element in front. */
  lemma MultisetCons<T>(x: T, s: seq<T>)
    ensures multiset([x] + s) == multiset{x} + multiset(s)
  {
  }

  /** One step of the filter: the head is kept exactly when its status matches. */
  lemma FilterStep(cs: seq<Competence>, statut: string)
    requires |cs| > 0
    ensures FiltrerParStatut(cs, statut)
         == (if StatutOf(cs[0]) == statut then [cs[0]] else []) + FiltrerParStatut(cs[1..], statut)
  {
  }

  /** Putting `x` in front of one part of a split of `s` gives a split of `[x] + s`. */
  lemma SplitCons<T>(x: T, s: seq<T>, a: seq<T>, b: seq<T>, a': seq<T>, b': seq<T>)
    requires multiset(a) + multiset(b) == multiset(s)
    requires (a' == [x] + a && b' == b) || (a' == a && b' == [x] + b)
    ensures multiset(a') + multiset(b') == multiset([x] + s)
  {
    MultisetCons(x, s);
    if a' == [x] + a {
      MultisetCons(x, a);
    } else {
      MultisetCons(x, b);
    }
  }

  /** Filtering by the two statuses splits the list: every competence lands in exactly one part. */
  lemma {:induction false} FilterPartition(cs: seq<Competence>)
    ensures multiset(FiltrerParStatut(cs, VALIDEE)) + multiset(FiltrerParStatut(cs, NON_VALIDEE)) == multiset(cs)
    decreases |cs|
  {
    if |cs| > 0 {
      var c, rest := cs[0], cs[1..];
      FilterPartition(rest);
      FilterStep(cs, VALIDEE);
      FilterStep(cs, NON_VALIDEE);
      StatutIsLabel(c);
      StatusLabelsDiffer();
      assert cs == [c] + rest;
      SplitCons(c, rest, FiltrerParStatut(rest, VALIDEE), FiltrerParStatut(rest, NON_VALIDEE),
                FiltrerParStatut(cs, VALIDEE), FiltrerParStatut(cs, NON_VALIDEE));
    }
  }

  /** The two status filters' lengths add up to the length of the list. */
  lemma FilterPartitionLengths(cs: seq<Competence>)
    ensures |FiltrerParStatut(cs, VALIDEE)| + |FiltrerParStatut(cs, NON_VALIDEE)| == |cs|
  {
    FilterPartition(cs);
    assert |multiset(FiltrerParStatut(cs, VALIDEE))| == |FiltrerParStatut(cs, VALIDEE)|;
    assert |multiset(FiltrerParStatut(cs, NON_VALIDEE))| == |FiltrerParStatut(cs, NON_VALIDEE)|;
    assert |multiset(cs)| == |cs|;
  }

  /** Any status other than the two labels selects nothing. */
  lemma FilterOtherStatus(cs: seq<Competence>, statut: string)
    requires statut != VALIDEE && statut != NON_VALIDEE
    ensures FiltrerParStatut(cs, statut) == []
  {
  }

  /** Two validated sub-items out of three: `validée`, 67 percent. */
  lemma ScenarioTwoOfThree()
    ensures CalculerStatutCompetence([SubItem("SC1", true), SubItem("SC2", true), SubItem("SC3", false)])
         == Evaluation(2, 1, 3, VALIDEE, Some(67))
  {
    var s := [SubItem("SC1", true), SubItem("SC2", true), SubItem("SC3", false)];
    assert ValidatedOnly(s) == [s[0], s[1]];
  }

  /** One validated sub-item out of three: `non validée`, 33 percent. */
  lemma ScenarioOneOfThree()
    ensures CalculerStatutCompetence([SubItem("SC1", true), SubItem("SC2", false), SubItem("SC3", false)])
         == Evaluation(1, 2, 3, NON_VALIDEE, Some(33))
  {
    var s := [SubItem("SC1", true), SubItem("SC2", false), SubItem("SC3", false)];
    assert ValidatedOnly(s) == [s[0]];
  }

  /** No sub-items: the tie rule makes it `validée`, and there is no percentage. */
  lemma ScenarioEmpty()
    ensures CalculerStatutCompetence([]) == Evaluation(0, 0, 0, VALIDEE, None)
  {
  }
}
