/**
 * What one sync run does, stated without loops: the variants of the products reached,
 * in listing order, reduced to the first occurrence of each SKU key, and the calls made
 * to the target system for them (a lookup for each, followed by a creation when the
 * lookup found nothing).
 */
module SyncPlan {
  import opened Wrappers
  import Text
  import opened Catalog

  /** A variant as seen by the routine: its product and its trimmed SKU. */
  datatype Candidate = Candidate(product: Product, sku: string)

  /** A call to the target system. */
  datatype Call = Lookup(sku: string) | Add(part: Part)

  /** The products the loop gets through: iterating a product whose `variants` is not an
      array throws, and the run's handler ends the run there. */
  function Reached(ps: seq<Product>): (r: seq<Product>)
    ensures r <= ps
    ensures forall k :: 0 <= k < |r| ==> r[k].variants.Some?
    ensures |r| < |ps| ==> ps[|r|].variants.None?
  {
    if ps == [] || ps[0].variants.None? then [] else [ps[0]] + Reached(ps[1..])
  }

  /** The candidates of the variants `vs` of product `p`, in order. */
  function VariantCandidates(p: Product, vs: seq<Variant>): (r: seq<Candidate>)
    ensures |r| == |vs|
  {
    if vs == [] then []
    else VariantCandidates(p, vs[..|vs| - 1]) + [Candidate(p, VariantSku(vs[|vs| - 1]))]
  }

  function CandidatesOf(p: Product): seq<Candidate> {
    VariantCandidates(p, p.variants.GetOr([]))
  }

  lemma VariantCandidatesStep(cs: seq<Candidate>, p: Product, vs: seq<Variant>, j: nat)
    requires j < |vs|
    ensures cs + VariantCandidates(p, vs[..j + 1]) == cs + VariantCandidates(p, vs[..j]) + [Candidate(p, VariantSku(vs[j]))]
  {
    assert vs[..j + 1][..j] == vs[..j];
  }

  /** Every variant of `ps`, product by product, in listing order. */
  function Candidates(ps: seq<Product>): seq<Candidate> {
    if ps == [] then [] else Candidates(ps[..|ps| - 1]) + CandidatesOf(ps[|ps| - 1])
  }

  /** The upper-cased non-empty SKUs of `cs`: the run's `processedSkus` after `cs`. */
  function Keys(cs: seq<Candidate>): set<string> {
    if cs == [] then {}
    else
      var last := cs[|cs| - 1];
      Keys(cs[..|cs| - 1]) + (if last.sku != [] then {Text.Upper(last.sku)} else {})
  }

  /** The candidate at `i` is processed: its SKU is non-empty and no earlier candidate
      has the same upper-cased SKU. */
  predicate FirstOccurrence(cs: seq<Candidate>, i: nat)
    requires i < |cs|
  {
    cs[i].sku != [] && forall j :: 0 <= j < i ==> Text.Upper(cs[j].sku) != Text.Upper(cs[i].sku)
  }

  /** The candidates that are looked up, in listing order: a candidate is kept when its
      SKU is non-empty and its key is not yet among the keys of the earlier candidates. */
  function Survivors(cs: seq<Candidate>): seq<Candidate> {
    if cs == [] then []
    else
      var init, last := cs[..|cs| - 1], cs[|cs| - 1];
      Survivors(init) + (if last.sku != [] && Text.Upper(last.sku) !in Keys(init) then [last] else [])
  }

  /** The calls made for one processed candidate, given whether the lookup found a part. */
  function Visit(c: Candidate, found: bool): seq<Call> {
    [Lookup(c.sku)] + (if found then [] else [Add(NewPart(c.product, c.sku))])
  }

  /** The calls made for candidate `c` when `keys` have been processed before it. */
  function Step(c: Candidate, keys: set<string>, found: bool): seq<Call> {
    if c.sku != [] && Text.Upper(c.sku) !in keys then Visit(c, found) else []
  }

  function Trace(ss: seq<Candidate>, found: string -> bool): seq<Call> {
    if ss == [] then []
    else Trace(ss[..|ss| - 1], found) + Visit(ss[|ss| - 1], found(ss[|ss| - 1].sku))
  }

  /** The calls of one run: none if login or the product fetch fails. */
  function Run(loginOk: bool, catalog: Option<seq<Product>>, found: string -> bool): (t: seq<Call>)
    ensures forall i :: 0 <= i < |t| && t[i].Add? ==>
              0 < i && t[i - 1] == Lookup(t[i].part.partNumber) && !found(t[i].part.partNumber)
  {
    if !loginOk || catalog.None? then []
    else
      var ss := Survivors(Candidates(Reached(catalog.value)));
      AddsFollowLookups(ss, found);
      Trace(ss, found)
  }

  /** The SKUs looked up by `t`, in order. */
  function LookedUp(t: seq<Call>): seq<string> {
    if t == [] then [] else (if t[0].Lookup? then [t[0].sku] else []) + LookedUp(t[1..])
  }

  /** The parts the target accepted among the creations of `t`; a rejected creation
      leaves no part and does not stop the calls that follow. */
  function Created(t: seq<Call>, accepts: Part -> bool): seq<Part> {
    if t == [] then []
    else (if t[0].Add? && accepts(t[0].part) then [t[0].part] else []) + Created(t[1..], accepts)
  }

  // ---------------------------------------------------------------------------
  // Step lemmas used by the loop in the orchestrator

  lemma CandidatesStep(ps: seq<Product>, i: nat)
    requires i < |ps|
    ensures Candidates(ps[..i + 1]) == Candidates(ps[..i]) + CandidatesOf(ps[i])
  {
    assert ps[..i + 1][..i] == ps[..i];
  }

  lemma {:induction false} KeysMeaning(cs: seq<Candidate>, k: string)
    ensures k in Keys(cs) <==> exists j :: 0 <= j < |cs| && cs[j].sku != [] && Text.Upper(cs[j].sku) == k
  {
    if cs != [] {
      var init := cs[..|cs| - 1];
      KeysMeaning(init, k);
      assert forall j :: 0 <= j < |init| ==> init[j] == cs[j];
    }
  }

  /** The set test of the loop decides first occurrence. */
  lemma FirstOccurrenceByKeys(cs: seq<Candidate>, c: Candidate)
    ensures FirstOccurrence(cs + [c], |cs|) <==> c.sku != [] && Text.Upper(c.sku) !in Keys(cs)
  {
    var cs' := cs + [c];
    KeysMeaning(cs, Text.Upper(c.sku));
    if c.sku != [] && Text.Upper(c.sku) in Keys(cs) {
      var j :| 0 <= j < |cs| && cs[j].sku != [] && Text.Upper(cs[j].sku) == Text.Upper(c.sku);
      assert cs'[j] == cs[j];
    }
    if c.sku != [] && !FirstOccurrence(cs', |cs|) {
      var j :| 0 <= j < |cs| && Text.Upper(cs'[j].sku) == Text.Upper(c.sku);
      assert cs'[j] == cs[j];
      assert |Text.Upper(cs[j].sku)| == |c.sku|;
    }
  }

  lemma SurvivorsStep(cs: seq<Candidate>, c: Candidate)
    ensures Survivors(cs + [c]) ==
      Survivors(cs) + (if c.sku != [] && Text.Upper(c.sku) !in Keys(cs) then [c] else [])
  {
    assert (cs + [c])[..|cs|] == cs;
    FirstOccurrenceByKeys(cs, c);
  }

  lemma KeysStep(cs: seq<Candidate>, c: Candidate)
    ensures Keys(cs + [c]) == Keys(cs) + (if c.sku != [] then {Text.Upper(c.sku)} else {})
  {
    assert (cs + [c])[..|cs|] == cs;
  }

  /** `Survivors` and `Keys` of a non-empty sequence, from those of its initial part. */
  lemma SurvivorsLast(cs: seq<Candidate>)
    requires cs != []
    ensures var init, c := cs[..|cs| - 1], cs[|cs| - 1];
      && Survivors(cs) == Survivors(init) + (if c.sku != [] && Text.Upper(c.sku) !in Keys(init) then [c] else [])
      && Keys(cs) == Keys(init) + (if c.sku != [] then {Text.Upper(c.sku)} else {})
  {
    var init, c := cs[..|cs| - 1], cs[|cs| - 1];
    assert cs == init + [c];
    SurvivorsStep(init, c);
    KeysStep(init, c);
  }

  lemma TraceStep(ss: seq<Candidate>, c: Candidate, found: string -> bool)
    ensures Trace(ss + [c], found) == Trace(ss, found) + Visit(c, found(c.sku))
  {
    assert (ss + [c])[..|ss|] == ss;
  }

  /** Extending the candidates by one extends the calls by that candidate's step. */
  lemma SurvivorsTraceStep(cs: seq<Candidate>, c: Candidate, found: string -> bool)
    ensures Trace(Survivors(cs + [c]), found) == Trace(Survivors(cs), found) + Step(c, Keys(cs), found(c.sku))
  {
    SurvivorsStep(cs, c);
    if c.sku != [] && Text.Upper(c.sku) !in Keys(cs) {
      TraceStep(Survivors(cs), c, found);
    } else {
      assert Survivors(cs + [c]) == Survivors(cs);
    }
  }

  /** Regrouping a concatenation. Stated apart so that the loops of the orchestrator get
      this fact without the solver searching for it among their many sequence terms. */
  lemma AppendAssoc<X>(a: seq<X>, b: seq<X>, c: seq<X>)
    ensures a + (b + c) == a + b + c
  {
  }

  lemma {:induction false} CreatedAppend(t: seq<Call>, u: seq<Call>, accepts: Part -> bool)
    ensures Created(t + u, accepts) == Created(t, accepts) + Created(u, accepts)
  {
    if t != [] {
      assert (t + u)[0] == t[0] && (t + u)[1..] == t[1..] + u;
      CreatedAppend(t[1..], u, accepts);
    } else {
      assert t + u == u;
    }
  }

  /** A lookup that finds nothing leads to one creation, kept when the target accepts it. */
  lemma CreatedOfVisit(c: Candidate, found: bool, accepts: Part -> bool)
    ensures Created(Visit(c, found), accepts) ==
      if !found && accepts(NewPart(c.product, c.sku)) then [NewPart(c.product, c.sku)] else []
  {
    var v := Visit(c, found);
    assert v[0] == Lookup(c.sku);
    if found {
      assert v[1..] == [];
    } else {
      var w := v[1..];
      assert w == [Add(NewPart(c.product, c.sku))];
      assert w[1..] == [];
      assert Created(w, accepts) == (if accepts(w[0].part) then [w[0].part] else []) + Created(w[1..], accepts);
    }
    assert Created(v, accepts) == [] + Created(v[1..], accepts);
  }

  lemma {:induction false} LookedUpAppend(t: seq<Call>, u: seq<Call>)
    ensures LookedUp(t + u) == LookedUp(t) + LookedUp(u)
  {
    if t != [] {
      assert (t + u)[0] == t[0] && (t + u)[1..] == t[1..] + u;
      LookedUpAppend(t[1..], u);
    } else {
      assert t + u == u;
    }
  }

  /** The loop of the orchestrator continues past product `i` only when it has variants.
      Stated apart for the same reason as `AppendAssoc`. */
  lemma ReachedStep(ps: seq<Product>, i: nat)
    requires i < |ps|
    requires forall k :: 0 <= k < i ==> ps[k].variants.Some?
    requires ps[i].variants.Some?
    ensures forall k :: 0 <= k < i + 1 ==> ps[k].variants.Some?
  {
  }

  /** The loop stops either after the last product or at the first product without a
      variants array; either way it has got through exactly `Reached`. */
  lemma {:induction false} ReachedIsPrefix(ps: seq<Product>, i: nat)
    requires i <= |ps|
    requires forall k :: 0 <= k < i ==> ps[k].variants.Some?
    requires i < |ps| ==> ps[i].variants.None?
    ensures Reached(ps) == ps[..i]
  {
    if i > 0 {
      assert forall k :: 0 <= k < i - 1 ==> ps[1..][k] == ps[k + 1];
      ReachedIsPrefix(ps[1..], i - 1);
      assert [ps[0]] + ps[1..][..i - 1] == ps[..i];
    }
  }

  // ---------------------------------------------------------------------------
  // Properties of the run

  /** Survivors keep listing order: processing more candidates only appends. */
  lemma {:induction false} SurvivorsGrowByAppending(cs: seq<Candidate>, m: nat)
    requires m <= |cs|
    ensures Survivors(cs[..m]) <= Survivors(cs)
    decreases |cs| - m
  {
    if m < |cs| {
      SurvivorsGrowByAppending(cs, m + 1);
      var init := cs[..m + 1];
      assert init[..|init| - 1] == cs[..m];
    } else {
      assert cs[..m] == cs;
    }
  }

  /** Every non-empty key of the candidates is looked up: the survivors have the same keys. */
  lemma {:induction false} SurvivorsCoverKeys(cs: seq<Candidate>)
    ensures Keys(Survivors(cs)) == Keys(cs)
    ensures forall k :: 0 <= k < |Survivors(cs)| ==> Survivors(cs)[k].sku != []
  {
    if cs != [] {
      var init, c := cs[..|cs| - 1], cs[|cs| - 1];
      SurvivorsCoverKeys(init);
      SurvivorsLast(cs);
      var s := Survivors(init);
      if c.sku != [] && Text.Upper(c.sku) !in Keys(init) {
        assert Survivors(cs) == s + [c];
        KeysStep(s, c);
        assert Keys(s + [c]) == Keys(s) + {Text.Upper(c.sku)};
        assert Keys(cs) == Keys(init) + {Text.Upper(c.sku)};
      } else {
        assert Survivors(cs) == s;
        assert Keys(cs) == Keys(init);
      }
    }
  }

  /** At most one lookup per key: no two survivors share an upper-cased SKU. */
  lemma {:induction false} SurvivorsDistinct(cs: seq<Candidate>)
    ensures forall i, j :: 0 <= i < j < |Survivors(cs)| ==>
              Text.Upper(Survivors(cs)[i].sku) != Text.Upper(Survivors(cs)[j].sku)
  {
    if cs != [] {
      var init, c := cs[..|cs| - 1], cs[|cs| - 1];
      SurvivorsDistinct(init);
      SurvivorsLast(cs);
      var s := Survivors(init);
      if c.sku != [] && Text.Upper(c.sku) !in Keys(init) {
        SurvivorsCoverKeys(init);
        forall i | 0 <= i < |s|
          ensures Text.Upper(s[i].sku) != Text.Upper(c.sku)
        {
          KeysMeaning(s, Text.Upper(s[i].sku));
        }
      }
    }
  }

  /** `x` is the candidate at some index `i` of `cs` that is a first occurrence. */
  predicate IsFirstOccurrence(cs: seq<Candidate>, x: Candidate) {
    exists i :: 0 <= i < |cs| && cs[i] == x && FirstOccurrence(cs, i)
  }

  /** Every survivor is the first candidate with its key. */
  lemma {:induction false} SurvivorsAreFirstOccurrences(cs: seq<Candidate>)
    ensures forall k :: 0 <= k < |Survivors(cs)| ==> IsFirstOccurrence(cs, Survivors(cs)[k])
  {
    if cs != [] {
      var init := cs[..|cs| - 1];
      assert cs == init + [cs[|cs| - 1]];
      SurvivorsAreFirstOccurrences(init);
      var s0 := Survivors(init);
      var s := Survivors(cs);
      var c := cs[|cs| - 1];
      FirstOccurrenceByKeys(init, c);
      assert FirstOccurrence(cs, |cs| - 1) <==> c.sku != [] && Text.Upper(c.sku) !in Keys(init);
      SurvivorsLast(cs);
      assert s == s0 + (if FirstOccurrence(cs, |cs| - 1) then [cs[|cs| - 1]] else []);
      forall k | 0 <= k < |s|
        ensures IsFirstOccurrence(cs, s[k])
      {
        if k < |s0| {
          assert IsFirstOccurrence(init, s0[k]);
          var i :| 0 <= i < |init| && init[i] == s0[k] && FirstOccurrence(init, i);
          assert cs[i] == init[i] && s[k] == s0[k];
          assert forall j :: 0 <= j < i ==> cs[j] == init[j];
          assert FirstOccurrence(cs, i);
        } else {
          var last := |cs| - 1;
          assert s[k] == cs[last] && FirstOccurrence(cs, last);
        }
      }
    }
  }

  lemma TraceLast(ss: seq<Candidate>, found: string -> bool)
    requires ss != []
    ensures Trace(ss, found) ==
      Trace(ss[..|ss| - 1], found) + Visit(ss[|ss| - 1], found(ss[|ss| - 1].sku))
  {
  }

  /** The shape of the calls: each creation directly follows the lookup of the same SKU,
      which found nothing; a lookup that finds nothing is directly followed by the
      creation; the part created is built from a processed candidate, so it carries the
      SKU as looked up and its product's title and description. */
  lemma {:induction false} TraceShape(ss: seq<Candidate>, found: string -> bool)
    ensures var t := Trace(ss, found);
      forall i :: 0 <= i < |t| && t[i].Add? ==>
        0 < i && t[i - 1] == Lookup(t[i].part.partNumber) && !found(t[i].part.partNumber)
    ensures var t := Trace(ss, found);
      forall i :: 0 <= i < |t| && t[i].Lookup? ==>
        (!found(t[i].sku) <==> i + 1 < |t| && t[i + 1].Add?)
    ensures var t := Trace(ss, found);
      forall i :: 0 <= i < |t| && t[i].Add? ==>
        exists k :: 0 <= k < |ss| && t[i].part == NewPart(ss[k].product, ss[k].sku)
  {
    if ss != [] {
      var init, c := ss[..|ss| - 1], ss[|ss| - 1];
      TraceShape(init, found);
      TraceLast(ss, found);
      var t0 := Trace(init, found);
      var v := Visit(c, found(c.sku));
      var t := Trace(ss, found);
      assert t == t0 + v;
      assert v[0] == Lookup(c.sku);
      assert found(c.sku) ==> |v| == 1;
      assert !found(c.sku) ==> |v| == 2 && v[1] == Add(NewPart(c.product, c.sku));
      forall i | 0 <= i < |t| && t[i].Add?
        ensures 0 < i && t[i - 1] == Lookup(t[i].part.partNumber) && !found(t[i].part.partNumber)
        ensures exists k :: 0 <= k < |ss| && t[i].part == NewPart(ss[k].product, ss[k].sku)
      {
        if i < |t0| {
          assert t[i] == t0[i] && t[i - 1] == t0[i - 1];
          var k :| 0 <= k < |init| && t0[i].part == NewPart(init[k].product, init[k].sku);
          assert init[k] == ss[k];
        } else {
          assert i == |t0| + 1 && t[i] == v[1] && t[i - 1] == v[0];
          assert t[i].part == NewPart(ss[|ss| - 1].product, ss[|ss| - 1].sku);
        }
      }
      forall i | 0 <= i < |t| && t[i].Lookup?
        ensures !found(t[i].sku) <==> i + 1 < |t| && t[i + 1].Add?
      {
        if i < |t0| {
          assert t[i] == t0[i];
          if i + 1 < |t0| {
            assert t[i + 1] == t0[i + 1];
          } else {
            assert t[i + 1] == v[0];
          }
        } else {
          assert i == |t0| && t[i] == v[0];
        }
      }
    }
  }

  /** The first clause of `TraceShape` on its own: every creation directly follows a
      lookup of the same SKU that found nothing. */
  lemma AddsFollowLookups(ss: seq<Candidate>, found: string -> bool)
    ensures forall i :: 0 <= i < |Trace(ss, found)| && Trace(ss, found)[i].Add? ==>
      0 < i && Trace(ss, found)[i - 1] == Lookup(Trace(ss, found)[i].part.partNumber)
      && !found(Trace(ss, found)[i].part.partNumber)
  {
    TraceShape(ss, found);
  }

  /** The lookups of a trace are exactly the SKUs of its candidates, in order. */
  lemma {:induction false} TraceLookups(ss: seq<Candidate>, found: string -> bool)
    ensures LookedUp(Trace(ss, found)) == seq(|ss|, k requires 0 <= k < |ss| => ss[k].sku)
  {
    if ss != [] {
      var init, c := ss[..|ss| - 1], ss[|ss| - 1];
      TraceLookups(init, found);
      TraceLast(ss, found);
      var v := Visit(c, found(c.sku));
      LookedUpAppend(Trace(init, found), v);
      assert LookedUp(v) == [c.sku] by {
        assert v[0] == Lookup(c.sku);
        if found(c.sku) {
          assert v[1..] == [];
        } else {
          var w := v[1..];
          assert w == [Add(NewPart(c.product, c.sku))];
          assert w[1..] == [];
          assert LookedUp(w) == LookedUp(w[1..]) == [];
        }
        assert LookedUp(v) == [c.sku] + LookedUp(v[1..]);
      }
    }
  }

  /** The SKUs looked up for `cs` are those of its survivors. */
  lemma LookupsAreSurvivors(cs: seq<Candidate>, found: string -> bool)
    ensures var l, s := LookedUp(Trace(Survivors(cs), found)), Survivors(cs);
      |l| == |s| && forall i :: 0 <= i < |l| ==> l[i] == s[i].sku
  {
    TraceLookups(Survivors(cs), found);
  }

  lemma LookupsDistinct(cs: seq<Candidate>, found: string -> bool)
    ensures var l := LookedUp(Trace(Survivors(cs), found));
      forall i, j :: 0 <= i < j < |l| ==> Text.Upper(l[i]) != Text.Upper(l[j])
  {
    LookupsAreSurvivors(cs, found);
    SurvivorsDistinct(cs);
  }

  lemma LookupsTrimmedNonEmpty(cs: seq<Candidate>, found: string -> bool)
    requires forall c :: c in cs ==> Text.Trim(c.sku) == c.sku
    ensures var l := LookedUp(Trace(Survivors(cs), found));
      forall i :: 0 <= i < |l| ==> l[i] != [] && Text.Trim(l[i]) == l[i]
  {
    LookupsAreSurvivors(cs, found);
    SurvivorsAreFirstOccurrences(cs);
    var l, s := LookedUp(Trace(Survivors(cs), found)), Survivors(cs);
    forall i | 0 <= i < |l|
      ensures l[i] != [] && Text.Trim(l[i]) == l[i]
    {
      var m :| 0 <= m < |cs| && cs[m] == s[i] && FirstOccurrence(cs, m);
      assert cs[m] in cs;
    }
  }

  lemma LookupsCoverKeys(cs: seq<Candidate>, found: string -> bool)
    ensures var l := LookedUp(Trace(Survivors(cs), found));
      forall c :: c in cs && c.sku != [] ==>
        exists i :: 0 <= i < |l| && Text.Upper(l[i]) == Text.Upper(c.sku)
  {
    LookupsAreSurvivors(cs, found);
    SurvivorsCoverKeys(cs);
    var l, s := LookedUp(Trace(Survivors(cs), found)), Survivors(cs);
    forall c | c in cs && c.sku != []
      ensures exists i :: 0 <= i < |l| && Text.Upper(l[i]) == Text.Upper(c.sku)
    {
      var m :| 0 <= m < |cs| && cs[m] == c;
      KeysMeaning(cs, Text.Upper(c.sku));
      KeysMeaning(s, Text.Upper(c.sku));
      var i :| 0 <= i < |s| && s[i].sku != [] && Text.Upper(s[i].sku) == Text.Upper(c.sku);
      assert l[i] == s[i].sku;
    }
  }

  /** One run, end to end: no call at all when login or the product fetch fails;
      otherwise each key of the reached variants is looked up exactly once, with the
      trimmed, non-empty SKU of its first occurrence. */
  lemma RunLooksUpEachKeyOnce(loginOk: bool, catalog: Option<seq<Product>>, found: string -> bool)
    ensures !loginOk || catalog.None? ==> Run(loginOk, catalog, found) == []
    ensures var l := LookedUp(Run(loginOk, catalog, found));
      forall i, j :: 0 <= i < j < |l| ==> Text.Upper(l[i]) != Text.Upper(l[j])
    ensures var l := LookedUp(Run(loginOk, catalog, found));
      forall i :: 0 <= i < |l| ==> l[i] != [] && Text.Trim(l[i]) == l[i]
    ensures loginOk && catalog.Some? ==>
      var l := LookedUp(Run(loginOk, catalog, found));
      forall c :: c in Candidates(Reached(catalog.value)) && c.sku != [] ==>
        exists i :: 0 <= i < |l| && Text.Upper(l[i]) == Text.Upper(c.sku)
  {
    if loginOk && catalog.Some? {
      var cs := Candidates(Reached(catalog.value));
      CandidateSkusTrimmed(Reached(catalog.value));
      LookupsDistinct(cs, found);
      LookupsTrimmedNonEmpty(cs, found);
      LookupsCoverKeys(cs, found);
    } else {
      assert LookedUp([]) == [];
    }
  }

  /** Every candidate SKU is already trimmed. */
  lemma {:induction false} VariantCandidatesTrimmed(p: Product, vs: seq<Variant>)
    ensures forall c :: c in VariantCandidates(p, vs) ==> Text.Trim(c.sku) == c.sku
  {
    if vs != [] {
      VariantCandidatesTrimmed(p, vs[..|vs| - 1]);
    }
  }

  lemma {:induction false} CandidateSkusTrimmed(ps: seq<Product>)
    ensures forall c :: c in Candidates(ps) ==> Text.Trim(c.sku) == c.sku
  {
    if ps != [] {
      CandidateSkusTrimmed(ps[..|ps| - 1]);
      var p := ps[|ps| - 1];
      VariantCandidatesTrimmed(p, p.variants.GetOr([]));
    }
  }

  /** A catalog of one product with one non-blank variant: one lookup, then a creation
      exactly when the lookup found nothing. */
  lemma SingleVariantRun(p: Product, v: Variant, found: string -> bool)
    requires p.variants == Some([v])
    requires VariantSku(v) != []
    ensures Run(true, Some([p]), found) ==
      [Lookup(VariantSku(v))] + (if found(VariantSku(v)) then [] else [Add(NewPart(p, VariantSku(v)))])
  {
    var c := Candidate(p, VariantSku(v));
    assert Survivors(Candidates(Reached([p]))) == [c] by {
      assert [p][1..] == [];
      assert Reached([p]) == [p];
      assert CandidatesOf(p) == [c] by {
        assert [v][..0] == [];
      }
      assert [p][..0] == [];
      assert Candidates([p]) == [c];
      assert [c][..0] == [];
    }
    assert Trace([c], found) == Visit(c, found(c.sku)) by {
      assert [c][..0] == [];
    }
  }

  /** The product "Bench" with the variant "BP-100", absent from the target: it is looked
      up and then created with an empty description. */
  lemma BenchIsCreated(found: string -> bool)
    requires !found("BP-100")
    ensures Run(true, Some([Product(1, "Bench", None, Some([Variant(10, Some("BP-100"))]))]), found)
            == [Lookup("BP-100"), Add(Part("BP-100", "Bench", "", true, true))]
  {
    var v := Variant(10, Some("BP-100"));
    var p := Product(1, "Bench", None, Some([v]));
    PlainSkuExample();
    assert NewPart(p, "BP-100") == Part("BP-100", "Bench", "", true, true);
    SingleVariantRun(p, v, found);
  }
}
