/** The reliability arithmetic of the simulator (simulate.py): a service with `n` independent
    replicas, each failing with probability `pf`, fails with probability `pf^n`; a path is as
    reliable as the product of its distinct services. Probabilities are exact reals here. */
module Reliability {
  import opened Wrappers
  import opened OrderedSets

  /** `max(0.0, min(1.0, x))`. */
  function Clamp01(x: real): (r: real)
    ensures 0.0 <= r <= 1.0
    ensures 0.0 <= x <= 1.0 ==> r == x
    ensures x <= 0.0 ==> r == 0.0
    ensures x >= 1.0 ==> r == 1.0
  {
    if x < 0.0 then 0.0 else if x > 1.0 then 1.0 else x
  }

  lemma Clamp01Monotone(x: real, y: real)
    requires x <= y
    ensures Clamp01(x) <= Clamp01(y)
  {
  }

  function Pow(b: real, n: nat): real
  {
    if n == 0 then 1.0 else b * Pow(b, n - 1)
  }

  /** The replica count actually used: at least one. */
  function EffectiveReplicas(replicas: int): (n: nat)
    ensures n >= 1 && n >= replicas
    ensures replicas >= 1 ==> n == replicas
  {
    if replicas < 1 then 1 else replicas
  }

  /** `_service_reliability`: one minus the joint failure probability of the replicas, with the
      failure probability clamped to [0, 1] and the replica count to at least one. */
  function ServiceReliability(pfail: real, replicas: int): (r: real)
    ensures 0.0 <= r <= 1.0
  {
    Clamp01(1.0 - Pow(Clamp01(pfail), EffectiveReplicas(replicas)))
  }

  // ---------------------------------------------------------------------------------------------
  // Powers of a probability

  /** Scaling by a probability never increases a non-negative quantity. */
  lemma ScaleByProbability(p: real, f: real)
    requires 0.0 <= p && 0.0 <= f <= 1.0
    ensures 0.0 <= p * f <= p
  {
  }

  /** The product of two probabilities is a probability no larger than either. */
  lemma ProductOfProbabilities(p: real, f: real, q: real)
    requires 0.0 <= p <= 1.0 && 0.0 <= f <= 1.0 && q == p * f
    ensures 0.0 <= q <= p && q <= f
  {
    ScaleByProbability(p, f);
    assert (1.0 - p) * f >= 0.0;
    assert f - p * f == (1.0 - p) * f;
  }

  lemma {:induction false} PowInUnit(b: real, n: nat)
    requires 0.0 <= b <= 1.0
    ensures 0.0 <= Pow(b, n) <= 1.0
  {
    if n > 0 {
      PowInUnit(b, n - 1);
      ScaleByProbability(Pow(b, n - 1), b);
    }
  }

  lemma {:induction false} PowMonotoneBase(a: real, b: real, n: nat)
    requires 0.0 <= a <= b
    ensures 0.0 <= Pow(a, n) <= Pow(b, n)
  {
    if n > 0 {
      PowMonotoneBase(a, b, n - 1);
      assert a * Pow(a, n - 1) <= b * Pow(a, n - 1);
      assert b * Pow(a, n - 1) <= b * Pow(b, n - 1);
    }
  }

  lemma {:induction false} PowAntitoneExponent(b: real, m: nat, n: nat)
    requires 0.0 <= b <= 1.0 && m <= n
    ensures Pow(b, n) <= Pow(b, m)
    decreases n - m
  {
    if m < n {
      PowAntitoneExponent(b, m, n - 1);
      PowInUnit(b, n - 1);
      ScaleByProbability(Pow(b, n - 1), b);
    }
  }

  lemma {:induction false} PowOfZero(n: nat)
    requires n >= 1
    ensures Pow(0.0, n) == 0.0
  {
  }

  lemma {:induction false} PowOfOne(n: nat)
    ensures Pow(1.0, n) == 1.0
  {
    if n > 0 {
      PowOfOne(n - 1);
    }
  }

  // ---------------------------------------------------------------------------------------------
  // Properties of the service reliability

  /** The outer clamp never acts: the result is exactly `1 - pf^n`. */
  lemma ServiceReliabilityFormula(pfail: real, replicas: int)
    ensures ServiceReliability(pfail, replicas) == 1.0 - Pow(Clamp01(pfail), EffectiveReplicas(replicas))
  {
    PowInUnit(Clamp01(pfail), EffectiveReplicas(replicas));
  }

  /** A service that never fails is fully reliable, whatever its replica count. */
  lemma NeverFails(pfail: real, replicas: int)
    requires pfail <= 0.0
    ensures ServiceReliability(pfail, replicas) == 1.0
  {
    PowOfZero(EffectiveReplicas(replicas));
  }

  /** A service that always fails is never available, whatever its replica count. */
  lemma AlwaysFails(pfail: real, replicas: int)
    requires pfail >= 1.0
    ensures ServiceReliability(pfail, replicas) == 0.0
  {
    PowOfOne(EffectiveReplicas(replicas));
  }

  /** A replica count below one counts as one. */
  lemma AtLeastOneReplica(pfail: real, replicas: int)
    requires replicas < 1
    ensures ServiceReliability(pfail, replicas) == ServiceReliability(pfail, 1)
  {
  }

  /** A higher failure probability never makes a service more reliable. */
  lemma MonotoneInPfail(p: real, q: real, replicas: int)
    requires p <= q
    ensures ServiceReliability(q, replicas) <= ServiceReliability(p, replicas)
  {
    var n := EffectiveReplicas(replicas);
    Clamp01Monotone(p, q);
    PowMonotoneBase(Clamp01(p), Clamp01(q), n);
    Clamp01Monotone(1.0 - Pow(Clamp01(q), n), 1.0 - Pow(Clamp01(p), n));
  }

  /** More replicas never make a service less reliable. */
  lemma MonotoneInReplicas(pfail: real, m: int, n: int)
    requires m <= n
    ensures ServiceReliability(pfail, m) <= ServiceReliability(pfail, n)
  {
    var pf := Clamp01(pfail);
    PowAntitoneExponent(pf, EffectiveReplicas(m), EffectiveReplicas(n));
    Clamp01Monotone(1.0 - Pow(pf, EffectiveReplicas(m)), 1.0 - Pow(pf, EffectiveReplicas(n)));
  }

  /** A coin-flip service: one replica is up half the time, two replicas three times in four. */
  lemma HalfFailingService()
    ensures ServiceReliability(0.5, 1) == 0.5
    ensures ServiceReliability(0.5, 2) == 0.75
  {
    assert Pow(0.5, 1) == 0.5;
    assert Pow(0.5, 2) == 0.25;
  }

  // ---------------------------------------------------------------------------------------------
  // Path reliability

  /** The product of the reliabilities of `services`, a service missing from `rel` counting 1.0. */
  function ProductOf(services: seq<string>, rel: map<string, real>): real
  {
    if services == [] then 1.0
    else ProductOf(services[..|services| - 1], rel) * Get(rel, services[|services| - 1], 1.0)
  }

  /** The reliability of a path: the product over its distinct services, each counted at its first
      occurrence, clamped to [0, 1]. */
  function PathReliabilityOf(services: seq<string>, rel: map<string, real>): (r: real)
    ensures 0.0 <= r <= 1.0
  {
    Clamp01(ProductOf(Dedup(services), rel))
  }

  lemma ProductAppend(s: seq<string>, x: string, rel: map<string, real>)
    ensures ProductOf(s + [x], rel) == ProductOf(s, rel) * Get(rel, x, 1.0)
  {
    assert (s + [x])[..|s|] == s;
  }

  lemma ProductStep(s: seq<string>, x: string, rel: map<string, real>, score: real)
    requires score == ProductOf(s, rel)
    ensures score * Get(rel, x, 1.0) == ProductOf(s + [x], rel)
  {
    ProductAppend(s, x, rel);
  }

  /** `_path_reliability`: one pass over the path with a `seen` set and a running product. */
  method PathReliability(services: seq<string>, rel: map<string, real>) returns (r: real)
    ensures r == PathReliabilityOf(services, rel)
  {
    var score := 1.0;
    var seen: set<string> := {};
    for i := 0 to |services|
      invariant forall x :: x in seen <==> x in Dedup(services[..i])
      invariant score == ProductOf(Dedup(services[..i]), rel)
    {
      var service := services[i];
      ghost var d := Dedup(services[..i]);
      DedupStep(services, i);
      if service in seen {
        continue;
      }
      ProductStep(d, service, rel, score);
      seen := seen + {service};
      score := score * Get(rel, service, 1.0);
    }
    assert services[..|services|] == services;
    r := Clamp01(score);
  }

  /** A service that occurs again later on the path is not counted again. */
  lemma RepeatIgnored(services: seq<string>, x: string, rel: map<string, real>)
    requires x in services
    ensures PathReliabilityOf(services + [x], rel) == PathReliabilityOf(services, rel)
  {
    DedupAppend(services, x);
    var j :| 0 <= j < |services| && services[j] == x;
    assert x in Dedup(services);
  }

  /** A path is worth exactly its first-occurrence subsequence. */
  lemma FirstOccurrencesOnly(services: seq<string>, rel: map<string, real>)
    ensures PathReliabilityOf(services, rel) == PathReliabilityOf(Dedup(services), rel)
  {
    DedupOfDistinct(Dedup(services));
  }

  /** `[A, B, A]` is worth the same as `[A, B]`. */
  lemma RevisitedService(a: string, b: string, rel: map<string, real>)
    ensures PathReliabilityOf([a, b, a], rel) == PathReliabilityOf([a, b], rel)
  {
    assert [a, b, a] == [a, b] + [a];
    RepeatIgnored([a, b], a, rel);
  }

  /** A service without a known reliability is neutral. */
  lemma UnknownServiceNeutral(services: seq<string>, x: string, rel: map<string, real>)
    requires x !in rel
    ensures PathReliabilityOf(services + [x], rel) == PathReliabilityOf(services, rel)
  {
    DedupAppend(services, x);
    if x !in Dedup(services) {
      ProductAppend(Dedup(services), x, rel);
    }
  }

  predicate AllProbabilities(rel: map<string, real>)
  {
    forall k :: k in rel ==> 0.0 <= rel[k] <= 1.0
  }

  lemma {:induction false} ProductInUnit(s: seq<string>, rel: map<string, real>)
    requires AllProbabilities(rel)
    ensures 0.0 <= ProductOf(s, rel) <= 1.0
    ensures forall i :: 0 <= i < |s| ==> ProductOf(s, rel) <= Get(rel, s[i], 1.0)
  {
    if s != [] {
      var init, x := s[..|s| - 1], s[|s| - 1];
      ProductInUnit(init, rel);
      var p, f := ProductOf(init, rel), Get(rel, x, 1.0);
      ProductOfProbabilities(p, f, ProductOf(s, rel));
      forall i | 0 <= i < |init| ensures ProductOf(s, rel) <= Get(rel, s[i], 1.0) {
        assert init[i] == s[i];
      }
    }
  }

  lemma AppendedFactorBound(s: seq<string>, x: string, rel: map<string, real>)
    requires AllProbabilities(rel) && 0.0 <= ProductOf(s, rel) <= 1.0
    ensures 0.0 <= ProductOf(s + [x], rel) <= ProductOf(s, rel)
  {
    var p, f := ProductOf(s, rel), Get(rel, x, 1.0);
    ProductStep(s, x, rel, p);
    ProductOfProbabilities(p, f, ProductOf(s + [x], rel));
  }

  /** With every known reliability a probability, the clamp never acts and a path is no more
      reliable than any service on it. */
  lemma WeakestLink(services: seq<string>, rel: map<string, real>)
    requires AllProbabilities(rel)
    ensures PathReliabilityOf(services, rel) == ProductOf(Dedup(services), rel)
    ensures forall i :: 0 <= i < |services| ==> PathReliabilityOf(services, rel) <= Get(rel, services[i], 1.0)
  {
    var d := Dedup(services);
    ProductInUnit(d, rel);
    forall i | 0 <= i < |services| ensures ProductOf(d, rel) <= Get(rel, services[i], 1.0) {
      assert services[i] in d;
      var j :| 0 <= j < |d| && d[j] == services[i];
    }
  }

  /** With every known reliability a probability, extending a path never makes it more reliable. */
  lemma LongerPathNoBetter(services: seq<string>, x: string, rel: map<string, real>)
    requires AllProbabilities(rel)
    ensures PathReliabilityOf(services + [x], rel) <= PathReliabilityOf(services, rel)
  {
    var d := Dedup(services);
    DedupAppend(services, x);
    ProductInUnit(d, rel);
    if x !in d {
      AppendedFactorBound(d, x, rel);
    }
  }
}
