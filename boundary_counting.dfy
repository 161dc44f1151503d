/** Boundary extraction by multiplicity, shared by the 2D edge and the 3D face detectors:
    every main element is expanded into its facets (edges or faces, original winding), every
    facet is counted under an order-independent key, and the facets whose key occurs exactly
    once are the boundary. The parallel extraction and the ConcurrentHashMap.compute counting
    of the source are modelled as sequential loops; the filter over the map's values is a loop
    over its keys in an unspecified order. */
module BoundaryCounting {

  /** Per-key entry of the counting map (EdgeData / FaceData): one representative facet in its
      original winding and the number of facets seen with that key. */
  datatype FacetData = FacetData(originalFacet: seq<int>, count: nat)

  ghost predicate KeyDefinedOn<K>(facets: seq<seq<int>>, key: seq<int> --> K) {
    forall i :: 0 <= i < |facets| ==> key.requires(facets[i])
  }

  /** How many facets of the list have key k. */
  function Multiplicity<K(==)>(facets: seq<seq<int>>, key: seq<int> --> K, k: K): nat
    requires KeyDefinedOn(facets, key)
  {
    if facets == [] then 0
    else Multiplicity(facets[..|facets| - 1], key, k) + (if key(facets[|facets| - 1]) == k then 1 else 0)
  }

  /** The facets of a list of elements, element by element, in each element's facet order. */
  function AllFacets(elems: seq<seq<int>>, facetsOf: seq<int> --> seq<seq<int>>): seq<seq<int>>
    requires forall i :: 0 <= i < |elems| ==> facetsOf.requires(elems[i])
  {
    if elems == [] then []
    else AllFacets(elems[..|elems| - 1], facetsOf) + facetsOf(elems[|elems| - 1])
  }

  /** The counting map is exact: its keys are the keys of the facets, each count is the
      multiplicity of its key and each representative is a facet with that key. */
  ghost predicate CountsOf<K>(m: map<K, FacetData>, facets: seq<seq<int>>, key: seq<int> --> K)
    requires KeyDefinedOn(facets, key)
  {
    && (forall i :: 0 <= i < |facets| ==> key(facets[i]) in m)
    && (forall k :: k in m ==>
          && m[k].count == Multiplicity(facets, key, k)
          && m[k].count >= 1
          && exists i :: 0 <= i < |facets| && facets[i] == m[k].originalFacet && key(facets[i]) == k)
  }

  /** The boundary characterisation: a facet is on the boundary iff its key occurs exactly once
      among all facets, it keeps its original winding, and no two boundary facets share a key. */
  ghost predicate IsBoundaryOf<K>(boundary: seq<seq<int>>, facets: seq<seq<int>>, key: seq<int> --> K)
    requires KeyDefinedOn(facets, key)
  {
    && (forall f :: f in boundary ==> f in facets)
    && (forall i :: 0 <= i < |facets| ==>
          (facets[i] in boundary <==> Multiplicity(facets, key, key(facets[i])) == 1))
    && (forall i, j :: 0 <= i < j < |boundary| && boundary[i] in facets && boundary[j] in facets ==>
          key(boundary[i]) != key(boundary[j]))
  }

  // ---------- lemmas ----------

  lemma MultiplicitySnoc<K>(facets: seq<seq<int>>, f: seq<int>, key: seq<int> --> K, k: K)
    requires KeyDefinedOn(facets + [f], key)
    requires key.requires(f)
    ensures KeyDefinedOn(facets, key)
    ensures Multiplicity(facets + [f], key, k) == Multiplicity(facets, key, k) + (if key(f) == k then 1 else 0)
  {
    assert KeyDefinedOn(facets, key) by {
      forall i | 0 <= i < |facets| ensures key.requires(facets[i]) {
        assert facets[i] == (facets + [f])[i];
      }
    }
    assert (facets + [f])[..|facets|] == facets;
  }

  /** A key that occurs in the list has multiplicity at least one. */
  lemma {:induction false} MultiplicityPositive<K>(facets: seq<seq<int>>, key: seq<int> --> K, i: nat)
    requires KeyDefinedOn(facets, key)
    requires i < |facets|
    ensures Multiplicity(facets, key, key(facets[i])) >= 1
  {
    var last := |facets| - 1;
    var init := facets[..last];
    assert facets == init + [facets[last]];
    MultiplicitySnoc(init, facets[last], key, key(facets[i]));
    if i < last {
      assert init[i] == facets[i];
      MultiplicityPositive(init, key, i);
    }
  }

  /** A key carried by no facet has multiplicity zero. */
  lemma {:induction false} MultiplicityAbsent<K>(facets: seq<seq<int>>, key: seq<int> --> K, k: K)
    requires KeyDefinedOn(facets, key)
    requires forall i :: 0 <= i < |facets| ==> key(facets[i]) != k
    ensures Multiplicity(facets, key, k) == 0
  {
    if facets != [] {
      var last := |facets| - 1;
      var init := facets[..last];
      assert facets == init + [facets[last]];
      MultiplicitySnoc(init, facets[last], key, k);
      assert forall i :: 0 <= i < |init| ==> init[i] == facets[i];
      MultiplicityAbsent(init, key, k);
    }
  }

  /** A key of multiplicity one is carried by exactly one position. */
  lemma {:induction false} MultiplicityOneUnique<K>(facets: seq<seq<int>>, key: seq<int> --> K, i: nat, j: nat)
    requires KeyDefinedOn(facets, key)
    requires i < |facets| && j < |facets|
    requires key(facets[i]) == key(facets[j])
    requires Multiplicity(facets, key, key(facets[i])) == 1
    ensures i == j
  {
    var last := |facets| - 1;
    var init := facets[..last];
    var k := key(facets[i]);
    assert facets == init + [facets[last]];
    MultiplicitySnoc(init, facets[last], key, k);
    if i < last && j < last {
      assert init[i] == facets[i] && init[j] == facets[j];
      MultiplicityPositive(init, key, i);
      MultiplicityOneUnique(init, key, i, j);
    } else if i < last {
      assert init[i] == facets[i];
      MultiplicityPositive(init, key, i);
    } else if j < last {
      assert init[j] == facets[j];
      MultiplicityPositive(init, key, j);
    }
  }

  lemma AllFacetsSnoc(elems: seq<seq<int>>, e: seq<int>, facetsOf: seq<int> --> seq<seq<int>>)
    requires forall i :: 0 <= i < |elems| + 1 ==> facetsOf.requires((elems + [e])[i])
    requires facetsOf.requires(e)
    ensures forall i :: 0 <= i < |elems| ==> facetsOf.requires(elems[i])
    ensures AllFacets(elems + [e], facetsOf) == AllFacets(elems, facetsOf) + facetsOf(e)
  {
    assert forall i :: 0 <= i < |elems| ==> (elems + [e])[i] == elems[i];
    assert (elems + [e])[..|elems|] == elems;
  }

  /** With facetsOf giving `width` facets per element, facet j of element i sits at
      position width * i + j. */
  lemma {:induction false} AllFacetsAt(elems: seq<seq<int>>, facetsOf: seq<int> --> seq<seq<int>>, width: nat, i: nat, j: nat)
    requires forall k :: 0 <= k < |elems| ==> facetsOf.requires(elems[k]) && |facetsOf(elems[k])| == width
    requires i < |elems| && j < width
    ensures |AllFacets(elems, facetsOf)| == width * |elems|
    ensures AllFacets(elems, facetsOf)[width * i + j] == facetsOf(elems[i])[j]
  {
    var last := |elems| - 1;
    var init := elems[..last];
    assert elems == init + [elems[last]];
    AllFacetsSnoc(init, elems[last], facetsOf);
    AllFacetsLength(init, facetsOf, width);
    AllFacetsLength(elems, facetsOf, width);
    var front := AllFacets(init, facetsOf);
    if i < last {
      assert init[i] == elems[i];
      AllFacetsAt(init, facetsOf, width, i, j);
      MulMonotone(width, i + 1, last);
      assert width * (i + 1) == width * i + width;
      assert width * i + j < |front|;
    } else {
      assert width * i + j == |front| + j;
    }
  }

  lemma {:induction false} AllFacetsLength(elems: seq<seq<int>>, facetsOf: seq<int> --> seq<seq<int>>, width: nat)
    requires forall k :: 0 <= k < |elems| ==> facetsOf.requires(elems[k]) && |facetsOf(elems[k])| == width
    ensures |AllFacets(elems, facetsOf)| == width * |elems|
  {
    if elems != [] {
      var last := |elems| - 1;
      var init := elems[..last];
      assert elems == init + [elems[last]];
      AllFacetsSnoc(init, elems[last], facetsOf);
      AllFacetsLength(init, facetsOf, width);
      assert width * |elems| == width * last + width;
    }
  }

  lemma MulMonotone(w: nat, a: nat, b: nat)
    requires a <= b
    ensures w * a <= w * b
  {
  }

  // ---------- the three imperative steps ----------

  /** Fills the flat facet array: facet j of element i goes to slot width * i + j. */
  method ExtractFacets(elems: array<seq<int>>, facetsOf: seq<int> --> seq<seq<int>>, width: nat)
    returns (all: array<seq<int>>)
    requires forall k :: 0 <= k < elems.Length ==> facetsOf.requires(elems[k]) && |facetsOf(elems[k])| == width
    ensures fresh(all)
    ensures all[..] == AllFacets(elems[..], facetsOf)
  {
    all := new seq<int>[width * elems.Length];
    var i := 0;
    while i < elems.Length
      invariant 0 <= i <= elems.Length
      invariant width * i <= all.Length
      invariant all[..width * i] == AllFacets(elems[..i], facetsOf)
    {
      var fs := facetsOf(elems[i]);
      MulMonotone(width, i + 1, elems.Length);
      var j := 0;
      while j < width
        invariant 0 <= j <= width
        invariant all[..width * i] == AllFacets(elems[..i], facetsOf)
        invariant forall t :: 0 <= t < j ==> all[width * i + t] == fs[t]
      {
        all[width * i + j] := fs[j];
        j := j + 1;
      }
      assert all[..width * (i + 1)] == all[..width * i] + fs;
      assert elems[..i + 1] == elems[..i] + [elems[i]];
      AllFacetsSnoc(elems[..i], elems[i], facetsOf);
      i := i + 1;
    }
    assert elems[..elems.Length] == elems[..];
    assert all[..width * elems.Length] == all[..];
  }

  /** The counting pass of ConcurrentHashMap.compute: a new key starts at count 1 with the facet
      as representative, a known key has its count incremented. */
  method CountFacets<K(==)>(facets: array<seq<int>>, key: seq<int> --> K) returns (m: map<K, FacetData>)
    requires KeyDefinedOn(facets[..], key)
    ensures CountsOf(m, facets[..], key)
  {
    m := map[];
    var i := 0;
    while i < facets.Length
      invariant 0 <= i <= facets.Length
      invariant KeyDefinedOn(facets[..i], key)
      invariant CountsOf(m, facets[..i], key)
    {
      var f := facets[i];
      assert key.requires(facets[..][i]);
      var k := key(f);
      assert facets[..i + 1] == facets[..i] + [f];
      ghost var m0 := m;
      if k in m {
        m := m[k := FacetData(m[k].originalFacet, m[k].count + 1)];
      } else {
        m := m[k := FacetData(f, 1)];
      }
      CountsOfStep(m0, m, facets[..i], f, key);
      i := i + 1;
    }
    assert facets[..facets.Length] == facets[..];
  }

  /** One counting step keeps the map exact. */
  lemma CountsOfStep<K>(m0: map<K, FacetData>, m: map<K, FacetData>, done: seq<seq<int>>, f: seq<int>, key: seq<int> --> K)
    requires KeyDefinedOn(done + [f], key)
    requires KeyDefinedOn(done, key)
    requires key.requires(f)
    requires CountsOf(m0, done, key)
    requires key(f) in m0 ==> m == m0[key(f) := FacetData(m0[key(f)].originalFacet, m0[key(f)].count + 1)]
    requires key(f) !in m0 ==> m == m0[key(f) := FacetData(f, 1)]
    ensures CountsOf(m, done + [f], key)
  {
    var all := done + [f];
    forall i | 0 <= i < |all| ensures key(all[i]) in m {
      if i < |done| { assert all[i] == done[i]; }
    }
    forall k | k in m
      ensures m[k].count == Multiplicity(all, key, k)
      ensures m[k].count >= 1
      ensures exists i :: 0 <= i < |all| && all[i] == m[k].originalFacet && key(all[i]) == k
    {
      MultiplicitySnoc(done, f, key, k);
      if k == key(f) && k !in m0 {
        assert all[|done|] == f;
        MultiplicityAbsent(done, key, k);
      } else {
        var i :| 0 <= i < |done| && done[i] == m0[k].originalFacet && key(done[i]) == k;
        assert all[i] == done[i];
      }
    }
  }

  /** The filter over the map's values: keeps the representative of every key counted once.
      The map is visited in an unspecified order, as the source's enumeration of a
      ConcurrentHashMap is. */
  method CollectBoundary<K(==)>(m: map<K, FacetData>, ghost facets: seq<seq<int>>, key: seq<int> --> K)
    returns (boundary: array<seq<int>>)
    requires KeyDefinedOn(facets, key)
    requires CountsOf(m, facets, key)
    ensures fresh(boundary)
    ensures IsBoundaryOf(boundary[..], facets, key)
  {
    var found: seq<seq<int>> := [];
    ghost var keys: seq<K> := [];
    var remaining := m.Keys;
    while remaining != {}
      invariant remaining <= m.Keys
      invariant |keys| == |found|
      invariant forall t :: 0 <= t < |keys| ==> keys[t] in m && keys[t] !in remaining && m[keys[t]].count == 1
      invariant forall t :: 0 <= t < |keys| ==> found[t] == m[keys[t]].originalFacet
      invariant forall t, u :: 0 <= t < u < |keys| ==> keys[t] != keys[u]
      invariant forall k :: k in m && k !in remaining && m[k].count == 1 ==> k in keys
      decreases |remaining|
    {
      var k :| k in remaining;
      if m[k].count == 1 {
        found := found + [m[k].originalFacet];
        keys := keys + [k];
      }
      remaining := remaining - {k};
    }
    boundary := new seq<int>[|found|](t requires 0 <= t < |found| => found[t]);
    assert boundary[..] == found;
    BoundaryFromCounts(m, facets, key, found, keys);
  }

  lemma BoundaryFromCounts<K>(m: map<K, FacetData>, facets: seq<seq<int>>, key: seq<int> --> K,
                                  found: seq<seq<int>>, keys: seq<K>)
    requires KeyDefinedOn(facets, key)
    requires CountsOf(m, facets, key)
    requires |keys| == |found|
    requires forall t :: 0 <= t < |keys| ==> keys[t] in m && m[keys[t]].count == 1
    requires forall t :: 0 <= t < |keys| ==> found[t] == m[keys[t]].originalFacet
    requires forall t, u :: 0 <= t < u < |keys| ==> keys[t] != keys[u]
    requires forall k :: k in m && m[k].count == 1 ==> k in keys
    ensures IsBoundaryOf(found, facets, key)
  {
    // every found facet is a facet carrying its own key
    forall t | 0 <= t < |found| ensures found[t] in facets && key(found[t]) == keys[t] {
      var i :| 0 <= i < |facets| && facets[i] == m[keys[t]].originalFacet && key(facets[i]) == keys[t];
    }
    forall i | 0 <= i < |facets|
      ensures facets[i] in found <==> Multiplicity(facets, key, key(facets[i])) == 1
    {
      var k := key(facets[i]);
      if Multiplicity(facets, key, k) == 1 {
        assert k in m && m[k].count == 1;
        var t :| 0 <= t < |keys| && keys[t] == k;
        var j :| 0 <= j < |facets| && facets[j] == m[k].originalFacet && key(facets[j]) == k;
        MultiplicityOneUnique(facets, key, i, j);
        assert found[t] == facets[i];
      }
      if facets[i] in found {
        var t :| 0 <= t < |found| && found[t] == facets[i];
        assert key(found[t]) == keys[t];
      }
    }
    forall t, u | 0 <= t < u < |found| && found[t] in facets && found[u] in facets
      ensures key(found[t]) != key(found[u])
    {
      assert key(found[t]) == keys[t] && key(found[u]) == keys[u];
    }
  }
}
