/**
 * The geometry side of `Mesh`: the vertex deduplication loop of `loadModel`
 * and the fixed two-quad scene of `createQuads`. Vertex components are reals
 * (the source's floats; see README for what that leaves out). The OBJ parser
 * is not modelled: its output reaches the loop as, per shape, the sequence of
 * vertices its index list designates.
 */
module MeshModel {

  datatype Vec2 = Vec2(x: real, y: real)
  datatype Vec3 = Vec3(x: real, y: real, z: real)

  /** The vertex record of `mesh.h`; equality compares all four fields. */
  datatype Vertex = Vertex(pos: Vec3, color: Vec3, texCoord: Vec2, normal: Vec3)

  predicate NoDuplicates<T(==)>(s: seq<T>)
  {
    forall i, j :: 0 <= i < j < |s| ==> s[i] != s[j]
  }

  /** The vertices of all shapes, shape after shape: the order in which `loadModel` visits them. */
  function Flatten<T>(shapes: seq<seq<T>>): (s: seq<T>)
  {
    if shapes == [] then [] else Flatten(shapes[..|shapes| - 1]) + shapes[|shapes| - 1]
  }

  /** Flattening one more shape appends its vertices. */
  lemma FlattenPrefixStep<T>(shapes: seq<seq<T>>, s: nat)
    requires s < |shapes|
    ensures Flatten(shapes[..s + 1]) == Flatten(shapes[..s]) + shapes[s]
  {
    assert shapes[..s + 1][..s] == shapes[..s];
  }

  /** Reference definition of deduplication, independent of any map: the distinct
      elements of `s`, each at the position of its first occurrence. */
  function Distinct<T(==)>(s: seq<T>): (d: seq<T>)
  {
    if s == [] then []
    else
      var d := Distinct(s[..|s| - 1]);
      if s[|s| - 1] in d then d else d + [s[|s| - 1]]
  }

  /** Deduplicating one more element of a stream appends it unless it was seen. */
  lemma DistinctPrefixStep<T>(s: seq<T>, k: nat)
    requires k < |s|
    ensures Distinct(s[..k + 1]) == if s[k] in Distinct(s[..k]) then Distinct(s[..k]) else Distinct(s[..k]) + [s[k]]
  {
    assert s[..k + 1][..k] == s[..k];
  }

  /** Deduplication keeps exactly the elements of its input. */
  lemma {:induction false} DistinctMembers<T>(s: seq<T>, x: T)
    ensures x in Distinct(s) <==> x in s
  {
    if s != [] {
      DistinctMembers(s[..|s| - 1], x);
      assert s == s[..|s| - 1] + [s[|s| - 1]];
    }
  }

  /** Deduplication leaves no two equal elements. */
  lemma {:induction false} DistinctHasNoDuplicates<T>(s: seq<T>)
    ensures NoDuplicates(Distinct(s))
  {
    if s != [] {
      DistinctHasNoDuplicates(s[..|s| - 1]);
    }
  }

  /** A sequence without duplicates, listed in first-occurrence order by the stream,
      is what deduplicating that stream yields: here, the list is its own dedup. */
  lemma {:induction false} DistinctOfDistinctFree<T>(s: seq<T>)
    requires NoDuplicates(s)
    ensures Distinct(s) == s
  {
    if s != [] {
      var p := s[..|s| - 1];
      assert NoDuplicates(p);
      DistinctOfDistinctFree(p);
      assert s[|s| - 1] !in p;
      assert s == p + [s[|s| - 1]];
    }
  }

  /** The vertex stream an index buffer describes. */
  function Expand<T>(vertices: seq<T>, indices: seq<nat>): (s: seq<T>)
    requires forall k :: 0 <= k < |indices| ==> indices[k] < |vertices|
    ensures |s| == |indices|
    ensures forall k :: 0 <= k < |indices| ==> s[k] == vertices[indices[k]]
  {
    seq(|indices|, k requires 0 <= k < |indices| => vertices[indices[k]])
  }

  /** What `loadModel`'s loop keeps true after processing the vertex stream
      `processed`: the stored vertices are its deduplication, one index per
      processed vertex naming an equal stored vertex, and the map sends exactly the
      stored vertices to their positions. */
  ghost predicate Deduplicated(vertices: seq<Vertex>, indices: seq<nat>, uniqueVertices: map<Vertex, nat>, processed: seq<Vertex>)
  {
    && vertices == Distinct(processed)
    && |indices| == |processed|
    && (forall k :: 0 <= k < |indices| ==> indices[k] < |vertices| && vertices[indices[k]] == processed[k])
    && (forall v :: v in uniqueVertices <==> v in vertices)
    && (forall i :: 0 <= i < |vertices| ==> vertices[i] in uniqueVertices && uniqueVertices[vertices[i]] == i)
  }

  /** One iteration of the inner loop keeps `Deduplicated`: a vertex missing from
      the map gets the current list size and is appended; the index of the vertex
      is pushed either way. */
  lemma DeduplicatedStep(vertices: seq<Vertex>, indices: seq<nat>, uniqueVertices: map<Vertex, nat>,
                         processed: seq<Vertex>, vertex: Vertex)
    requires Deduplicated(vertices, indices, uniqueVertices, processed)
    ensures vertex !in uniqueVertices ==>
              Deduplicated(vertices + [vertex], indices + [|vertices|], uniqueVertices[vertex := |vertices|], processed + [vertex])
    ensures vertex in uniqueVertices ==>
              Deduplicated(vertices, indices + [uniqueVertices[vertex]], uniqueVertices, processed + [vertex])
  {
    DistinctHasNoDuplicates(processed);
    assert (processed + [vertex])[..|processed|] == processed;
  }

  class Mesh {
    var vertices: seq<Vertex>   // m_vertices
    var indices: seq<nat>       // m_indices

    /** `loadModel`'s deduplication. Both lists are cleared first, so the result
        depends on the input stream alone; then, for every vertex of every shape,
        a vertex not yet in the map is given the current list size as its index
        and appended, and the vertex's index is pushed. The result: one index per
        input vertex, each naming a vertex equal to that input; no two stored
        vertices equal; stored vertices in first-occurrence order. */
    method LoadModel(shapes: seq<seq<Vertex>>)
      modifies this
      ensures forall k :: 0 <= k < |indices| ==> indices[k] < |vertices|
      ensures NoDuplicates(vertices)
      ensures vertices == Distinct(Flatten(shapes))
      ensures |indices| == |Flatten(shapes)|
      ensures forall k :: 0 <= k < |indices| ==> vertices[indices[k]] == Flatten(shapes)[k]
    {
      vertices := [];
      indices := [];
      var uniqueVertices: map<Vertex, nat> := map[];
      ghost var processed: seq<Vertex> := [];
      var s := 0;
      while s < |shapes|
        invariant 0 <= s <= |shapes|
        invariant processed == Flatten(shapes[..s])
        invariant Deduplicated(vertices, indices, uniqueVertices, processed)
      {
        var j := 0;
        while j < |shapes[s]|
          invariant 0 <= j <= |shapes[s]|
          invariant processed == Flatten(shapes[..s]) + shapes[s][..j]
          invariant Deduplicated(vertices, indices, uniqueVertices, processed)
        {
          var vertex := shapes[s][j];
          DeduplicatedStep(vertices, indices, uniqueVertices, processed, vertex);
          if vertex !in uniqueVertices {
            uniqueVertices := uniqueVertices[vertex := |vertices|];
            vertices := vertices + [vertex];
          }
          indices := indices + [uniqueVertices[vertex]];
          processed := processed + [vertex];
          assert shapes[s][..j + 1] == shapes[s][..j] + [vertex];
          j := j + 1;
        }
        assert shapes[s][..j] == shapes[s];
        FlattenPrefixStep(shapes, s);
        s := s + 1;
      }
      assert shapes[..s] == shapes;
      DistinctHasNoDuplicates(processed);
    }

    /** `createQuads`: clears both lists and installs the two fixed quads. */
    method CreateQuads()
      modifies this
      ensures vertices == QuadVertices && indices == QuadIndices
      ensures forall k :: 0 <= k < |indices| ==> indices[k] < |vertices|
    {
      vertices := [];
      indices := [];
      vertices := QuadVertices;
      indices := QuadIndices;
    }
  }

  const Red: Vec3 := Vec3(1.0, 0.0, 0.0)
  const Green: Vec3 := Vec3(0.0, 1.0, 0.0)
  const Blue: Vec3 := Vec3(0.0, 0.0, 1.0)
  const White: Vec3 := Vec3(1.0, 1.0, 1.0)
  const NoNormal: Vec3 := Vec3(0.0, 0.0, 0.0)

  /** The eight corners of two unit quads, at depth 0 and -0.5; the normal is left zero. */
  const QuadVertices: seq<Vertex> := [
    Vertex(Vec3( 0.5,  0.5,  0.0), Red,   Vec2(1.0, 1.0), NoNormal),
    Vertex(Vec3(-0.5,  0.5,  0.0), Green, Vec2(0.0, 1.0), NoNormal),
    Vertex(Vec3(-0.5, -0.5,  0.0), Blue,  Vec2(0.0, 0.0), NoNormal),
    Vertex(Vec3( 0.5, -0.5,  0.0), White, Vec2(1.0, 0.0), NoNormal),
    Vertex(Vec3( 0.5,  0.5, -0.5), Red,   Vec2(1.0, 1.0), NoNormal),
    Vertex(Vec3(-0.5,  0.5, -0.5), Green, Vec2(0.0, 1.0), NoNormal),
    Vertex(Vec3(-0.5, -0.5, -0.5), Blue,  Vec2(0.0, 0.0), NoNormal),
    Vertex(Vec3( 0.5, -0.5, -0.5), White, Vec2(1.0, 0.0), NoNormal)
  ]

  /** Two triangles per quad: 0-1-2, 2-3-0 and the same on the second quad. */
  const QuadIndices: seq<nat> := [0, 1, 2, 2, 3, 0, 4, 5, 6, 6, 7, 4]

  /** One past the largest index used so far (0 for none): how many vertices an
      index prefix has brought into play. */
  function IndicesInUse(indices: seq<nat>): nat
  {
    if indices == [] then 0
    else
      var p := IndicesInUse(indices[..|indices| - 1]);
      var last := indices[|indices| - 1];
      if last < p then p else last + 1
  }

  /** The vertices in play are the least count that every index stays below. */
  lemma {:induction false} IndicesInUseIsLeastBound(indices: seq<nat>, bound: nat)
    ensures (forall k :: 0 <= k < |indices| ==> indices[k] < bound) <==> IndicesInUse(indices) <= bound
  {
    if indices != [] {
      var p := indices[..|indices| - 1];
      IndicesInUseIsLeastBound(p, bound);
      assert forall k :: 0 <= k < |p| ==> p[k] == indices[k];
      if forall k :: 0 <= k < |indices| ==> indices[k] < bound {
        assert forall k :: 0 <= k < |p| ==> p[k] < bound;
      }
    }
  }

  /** Every index either repeats a vertex already in play or brings in the next one:
      the vertex list is in the order the index buffer first uses it. */
  predicate FirstUseOrdered(indices: seq<nat>)
  {
    forall k :: 0 <= k < |indices| ==> indices[k] <= IndicesInUse(indices[..k])
  }

  /** A prefix of a duplicate-free list grows by an element it did not hold. */
  lemma NewPrefixElement<T>(vertices: seq<T>, m: nat)
    requires m < |vertices| && NoDuplicates(vertices)
    ensures vertices[m] !in vertices[..m]
    ensures vertices[..m + 1] == vertices[..m] + [vertices[m]]
  {
  }

  /** An indexed mesh with distinct vertices listed in first-use order is a fixed
      point of deduplication: expanding it to a vertex stream and deduplicating that
      stream gives back the vertices in play. */
  lemma {:induction false} DistinctOfFirstUseOrdered<T>(vertices: seq<T>, indices: seq<nat>)
    requires forall k :: 0 <= k < |indices| ==> indices[k] < |vertices|
    requires NoDuplicates(vertices)
    requires FirstUseOrdered(indices)
    ensures IndicesInUse(indices) <= |vertices|
    ensures Distinct(Expand(vertices, indices)) == vertices[..IndicesInUse(indices)]
  {
    if indices != [] {
      var p := indices[..|indices| - 1];
      assert FirstUseOrdered(p) by {
        forall k | 0 <= k < |p| ensures p[k] <= IndicesInUse(p[..k]) {
          assert p[..k] == indices[..k];
        }
      }
      DistinctOfFirstUseOrdered(vertices, p);
      DistinctOfFirstUseOrderedStep(vertices, indices);
    }
  }

  /** The step of `DistinctOfFirstUseOrdered`: from the index list without its
      last index to the whole list. */
  lemma DistinctOfFirstUseOrderedStep<T>(vertices: seq<T>, indices: seq<nat>)
    requires indices != [] && forall k :: 0 <= k < |indices| ==> indices[k] < |vertices|
    requires NoDuplicates(vertices)
    requires FirstUseOrdered(indices)
    requires var p := indices[..|indices| - 1];
             IndicesInUse(p) <= |vertices| && Distinct(Expand(vertices, p)) == vertices[..IndicesInUse(p)]
    ensures IndicesInUse(indices) <= |vertices|
    ensures Distinct(Expand(vertices, indices)) == vertices[..IndicesInUse(indices)]
  {
    var n := |indices| - 1;
    var p := indices[..n];
    IndicesInUseIsLeastBound(indices, |vertices|);
    var m := IndicesInUse(p);
    var stream := Expand(vertices, indices);
    assert stream[..n] == Expand(vertices, p);
    DistinctPrefixStep(stream, n);
    assert stream[..n + 1] == stream;
    var i := indices[n];
    assert i <= m by { assert indices[..n] == p; }
    assert stream[n] == vertices[i];
    if i == m {
      NewPrefixElement(vertices, m);
    } else {
      assert vertices[..m][i] == vertices[i];
    }
  }

  /** One more index brings in one more vertex exactly when it names the next one. */
  lemma IndicesInUseStep(indices: seq<nat>, k: nat)
    requires k < |indices|
    ensures IndicesInUse(indices[..k + 1]) ==
              if indices[k] < IndicesInUse(indices[..k]) then IndicesInUse(indices[..k]) else indices[k] + 1
  {
    assert indices[..k + 1][..k] == indices[..k];
  }

  /** The eight quad corners are pairwise different. */
  lemma QuadVerticesDistinct()
    ensures NoDuplicates(QuadVertices)
  {
    forall i, j | 0 <= i < j < |QuadVertices| ensures QuadVertices[i] != QuadVertices[j] {
    }
  }

  /** `uses[k]` is how many vertices the first `k` indices bring into play, when
      each entry follows from the one before it by the rule of `IndicesInUse`. */
  lemma {:induction false} IndicesInUseChain(indices: seq<nat>, uses: seq<nat>, k: nat)
    requires |uses| == |indices| + 1 && uses[0] == 0
    requires forall i :: 0 <= i < |indices| ==>
               uses[i + 1] == if indices[i] < uses[i] then uses[i] else indices[i] + 1
    requires k <= |indices|
    ensures IndicesInUse(indices[..k]) == uses[k]
  {
    if k == 0 {
      assert indices[..0] == [];
    } else {
      IndicesInUseChain(indices, uses, k - 1);
      IndicesInUseStep(indices, k - 1);
    }
  }

  /** How many vertices each prefix of the quad index buffer brings into play. */
  const QuadUses: seq<nat> := [0, 1, 2, 3, 3, 4, 4, 5, 6, 7, 7, 8, 8]

  /** The quad index buffer uses its vertices in list order. */
  lemma QuadIndicesFirstUseOrdered()
    ensures FirstUseOrdered(QuadIndices) && IndicesInUse(QuadIndices) == 8
  {
    QuadUsesFollowRule();
    forall k | 0 <= k < |QuadIndices|
      ensures QuadIndices[k] <= IndicesInUse(QuadIndices[..k])
    {
      IndicesInUseChain(QuadIndices, QuadUses, k);
    }
    IndicesInUseChain(QuadIndices, QuadUses, 12);
    assert QuadIndices[..12] == QuadIndices;
  }

  /** Each entry of `QuadUses` follows from the one before it, and no quad index
      goes past the vertices in play before it. */
  lemma QuadUsesFollowRule()
    ensures |QuadUses| == |QuadIndices| + 1 && QuadUses[0] == 0 && QuadUses[12] == 8
    ensures forall i :: 0 <= i < |QuadIndices| ==>
              QuadUses[i + 1] == if QuadIndices[i] < QuadUses[i] then QuadUses[i] else QuadIndices[i] + 1
    ensures forall i :: 0 <= i < |QuadIndices| ==> QuadIndices[i] <= QuadUses[i]
  {
  }


  /** The quad scene is a well-formed indexed mesh: 8 distinct vertices, 12 indices
      all below 8, i.e. 4 triangles; and it is exactly what deduplicating its own
      vertex stream produces, so `createQuads` and `loadModel` agree on it. */
  lemma QuadsAreDeduplicated()
    ensures |QuadVertices| == 8 && |QuadIndices| == 12 && |QuadIndices| / 3 == 4
    ensures forall k :: 0 <= k < |QuadIndices| ==> QuadIndices[k] < |QuadVertices|
    ensures NoDuplicates(QuadVertices)
    ensures Distinct(Expand(QuadVertices, QuadIndices)) == QuadVertices
  {
    QuadVerticesDistinct();
    QuadIndicesFirstUseOrdered();
    IndicesInUseIsLeastBound(QuadIndices, 8);
    DistinctOfFirstUseOrdered(QuadVertices, QuadIndices);
    assert QuadVertices[..8] == QuadVertices;
  }
}
