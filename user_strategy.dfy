/** Strategies that select the candidate members of a user's neighbourhood
    (`recommender/knn/user_strategy.py`). The similarity object the nearest
    strategy caches is not part of this model: it is a value recording how it
    was built, and querying it is a function `lookup` supplied by the caller
    that yields (id, score) pairs, a `None` score standing for NaN. */
module UserStrategy {
  import opened Wrappers

  /** A neighbour's similarity score; `None` is NaN. */
  type Score = Option<real>

  /** The pairwise metric handed to the similarity. Python compares metric
      functions by identity; here each is a distinct value. */
  datatype Metric =
    | EuclideanDistances
    | PearsonCorrelation
    | CosineDistances
    | LoglikehoodCoefficient
    | Custom(name: string)

  // ---------------------------------------------------------------------
  // AllPossibleUserStrategy

  /** `user_ids[user_ids != user_id]`: the sequence with every occurrence of
      x removed, the rest kept in order. */
  function Without<T(==,!new)>(s: seq<T>, x: T): (r: seq<T>)
    ensures |r| <= |s|
    ensures forall z :: z in r <==> z in s && z != x
  {
    if |s| == 0 then []
    else
      assert s == [s[0]] + s[1..];
      (if s[0] == x then [] else [s[0]]) + Without(s[1..], x)
  }

  /** Each occurrence of x is dropped and every other element is kept as
      many times as it occurs. */
  lemma {:induction false} WithoutCount<T(!new)>(s: seq<T>, x: T)
    ensures multiset(Without(s, x))[x] == 0
    ensures forall z :: z != x ==> multiset(Without(s, x))[z] == multiset(s)[z]
  {
    if |s| > 0 {
      WithoutCount(s[1..], x);
      assert s == [s[0]] + s[1..];
    }
  }

  /** Removal distributes over concatenation, so the kept elements stay in
      their original relative order. */
  lemma {:induction false} WithoutAppend<T(!new)>(s: seq<T>, t: seq<T>, x: T)
    ensures Without(s + t, x) == Without(s, x) + Without(t, x)
  {
    if |s| == 0 {
      assert s + t == t;
    } else {
      assert (s + t)[0] == s[0] && (s + t)[1..] == s[1..] + t;
      WithoutAppend(s[1..], t, x);
    }
  }

  /** Removing an id that does not occur leaves the sequence unchanged. */
  lemma {:induction false} WithoutAbsent<T(!new)>(s: seq<T>, x: T)
    requires x !in s
    ensures Without(s, x) == s
  {
    if |s| > 0 {
      WithoutAbsent(s[1..], x);
    }
  }

  /** `AllPossibleUserStrategy.candidate_users`: every user of the data model
      except the anchor, in the model's order; an empty id array is returned
      as it is, which is what the filter gives on it too. The members and
      their order are those `Without` promises. */
  function AllPossibleCandidates<Id(==,!new)>(userIds: seq<Id>, userId: Id): (r: seq<Id>)
    ensures |userIds| == 0 ==> r == []
    ensures r == Without(userIds, userId)
  {
    if |userIds| > 0 then Without(userIds, userId) else userIds
  }

  // ---------------------------------------------------------------------
  // NearestUserStrategy

  /** The condition of the neighbourhood comprehension: the score is not
      NaN, reaches the threshold, and the neighbour is not the anchor. */
  predicate Admissible<Id(==,!new)>(entry: (Id, Score), userId: Id, minimal: real)
  {
    entry.1.Some? && entry.1.value >= minimal && entry.0 != userId
  }

  /** The ids of the admissible entries, in the order the similarity lists
      them. */
  function Neighbourhood<Id(==,!new)>(entries: seq<(Id, Score)>, userId: Id, minimal: real): (r: seq<Id>)
    ensures |r| <= |entries|
  {
    if |entries| == 0 then []
    else (if Admissible(entries[0], userId, minimal) then [entries[0].0] else []) + Neighbourhood(entries[1..], userId, minimal)
  }

  /** An id is in the neighbourhood exactly when some admissible entry
      carries it; in particular the anchor never is. */
  lemma {:induction false} NeighbourhoodMembers<Id(!new)>(entries: seq<(Id, Score)>, userId: Id, minimal: real)
    ensures userId !in Neighbourhood(entries, userId, minimal)
    ensures forall z :: z in Neighbourhood(entries, userId, minimal) <==>
              exists k :: 0 <= k < |entries| && entries[k].0 == z && Admissible(entries[k], userId, minimal)
  {
    if |entries| > 0 {
      NeighbourhoodMembers(entries[1..], userId, minimal);
      assert forall k :: 0 < k < |entries| ==> entries[k] == entries[1..][k - 1];
      assert forall k :: 0 <= k < |entries| - 1 ==> entries[1..][k] == entries[k + 1];
    }
  }

  /** The comprehension distributes over concatenation: the neighbourhood
      keeps the order of the similarity's list. */
  lemma {:induction false} NeighbourhoodAppend<Id(!new)>(e: seq<(Id, Score)>, f: seq<(Id, Score)>, userId: Id, minimal: real)
    ensures Neighbourhood(e + f, userId, minimal) == Neighbourhood(e, userId, minimal) + Neighbourhood(f, userId, minimal)
  {
    if |e| == 0 {
      assert e + f == f;
    } else {
      var head := if Admissible(e[0], userId, minimal) then [e[0].0] else [];
      assert (e + f)[0] == e[0] && (e + f)[1..] == e[1..] + f;
      NeighbourhoodAppend(e[1..], f, userId, minimal);
      calc {
        Neighbourhood(e + f, userId, minimal);
        head + Neighbourhood(e[1..] + f, userId, minimal);
        head + (Neighbourhood(e[1..], userId, minimal) + Neighbourhood(f, userId, minimal));
        (head + Neighbourhood(e[1..], userId, minimal)) + Neighbourhood(f, userId, minimal);
      }
    }
  }

  /** A higher threshold selects a subset of the neighbours. */
  lemma NeighbourhoodMonotone<Id(!new)>(entries: seq<(Id, Score)>, userId: Id, low: real, high: real)
    requires low <= high
    ensures forall z :: z in Neighbourhood(entries, userId, high) ==> z in Neighbourhood(entries, userId, low)
  {
    NeighbourhoodMembers(entries, userId, low);
    NeighbourhoodMembers(entries, userId, high);
    forall z | z in Neighbourhood(entries, userId, high)
      ensures z in Neighbourhood(entries, userId, low)
    {
      var k :| 0 <= k < |entries| && entries[k].0 == z && Admissible(entries[k], userId, high);
      assert Admissible(entries[k], userId, low);
    }
  }

  /** What the strategy caches: the similarity built from a data model, a
      metric and a neighbourhood size. */
  datatype UserSimilarity<Model> = UserSimilarity(dataModel: Model, distance: Metric, nhoodSize: Option<int>)

  /** `nhood_size if not nhood_size else nhood_size + 1`: a size Python
      finds true (neither None nor 0) grows by one, to leave room for the
      anchor in its own neighbourhood. */
  function AdjustedSize(n: Option<int>): (r: Option<int>)
    ensures r.Some? <==> n.Some?
    ensures n.Some? && n.value != 0 ==> r.value == n.value + 1
    ensures n == Some(0) ==> r == Some(0)
  {
    if n.Some? && n.value != 0 then Some(n.value + 1) else n
  }

  /** `_set_similarity`: the cached similarity is kept when there is one
      built with the same metric, whatever data model and size are passed
      now; otherwise a new one is built with the adjusted size. */
  function Refresh<Model>(current: Option<UserSimilarity<Model>>, dataModel: Model, distance: Metric, nhoodSize: Option<int>)
    : (r: UserSimilarity<Model>)
    ensures r.distance == distance
    ensures current.Some? && current.value.distance == distance ==> r == current.value
    ensures current.None? || current.value.distance != distance ==>
              r.dataModel == dataModel && r.nhoodSize == AdjustedSize(nhoodSize)
  {
    if current.Some? && current.value.distance == distance then current.value
    else UserSimilarity(dataModel, distance, AdjustedSize(nhoodSize))
  }

  /** A second refresh with the same metric changes nothing, even with a
      different data model or size: only the metric invalidates the cache. */
  lemma RefreshStable<Model>(current: Option<UserSimilarity<Model>>, m: Model, m': Model, distance: Metric,
                             n: Option<int>, n': Option<int>)
    ensures Refresh(Some(Refresh(current, m, distance, n)), m', distance, n') == Refresh(current, m, distance, n)
  {
  }

  /** A refresh with another metric always rebuilds. */
  lemma RefreshRebuilds<Model>(s: UserSimilarity<Model>, m: Model, distance: Metric, n: Option<int>)
    requires s.distance != distance
    ensures Refresh(Some(s), m, distance, n) == UserSimilarity(m, distance, AdjustedSize(n))
  {
  }

  /** The metric used when the caller passes none. */
  function MetricOrDefault(distance: Option<Metric>): (r: Metric)
    ensures distance.Some? ==> r == distance.value
    ensures distance.None? ==> r == EuclideanDistances
  {
    if distance.Some? then distance.value else EuclideanDistances
  }

  /** `params.get('minimal_similarity', 0.0)`. */
  function MinimalOrDefault(minimal: Option<real>): (r: real)
    ensures minimal.Some? ==> r == minimal.value
    ensures minimal.None? ==> r == 0.0
  {
    if minimal.Some? then minimal.value else 0.0
  }

  /** `NearestUserStrategy`: a strategy holding the similarity it last built. */
  class NearestUserStrategy<Model> {
    var similarity: Option<UserSimilarity<Model>>

    /** `__init__`: no similarity yet. */
    constructor ()
      ensures similarity == None
    {
      similarity := None;
    }

    /** `_set_similarity(data_model, distance, nhood_size)`. */
    method SetSimilarity(dataModel: Model, distance: Metric, nhoodSize: Option<int>)
      modifies this
      ensures similarity == Some(Refresh(old(similarity), dataModel, distance, nhoodSize))
    {
      if similarity.None? || similarity.value.distance != distance {
        similarity := Some(UserSimilarity(dataModel, distance, AdjustedSize(nhoodSize)));
      }
    }

    /** `candidate_users(user_id, data_model, distance, nhood_size,
        minimal_similarity=...)`: refreshes the cached similarity (Euclidean
        when no metric is given), then keeps the ids its list for `user_id`
        scores non-NaN, at least the threshold (0.0 by default), and other
        than `user_id`. */
    method CandidateUsers<Id(==,!new)>(userId: Id, dataModel: Model, distance: Option<Metric>, nhoodSize: Option<int>,
                                  minimalSimilarity: Option<real>,
                                  lookup: (UserSimilarity<Model>, Id) -> seq<(Id, Score)>)
      returns (neighbourhood: seq<Id>)
      modifies this
      ensures similarity == Some(Refresh(old(similarity), dataModel, MetricOrDefault(distance), nhoodSize))
      ensures similarity.value.distance == MetricOrDefault(distance)
      ensures neighbourhood == Neighbourhood(lookup(similarity.value, userId), userId, MinimalOrDefault(minimalSimilarity))
    {
      var minimal := MinimalOrDefault(minimalSimilarity);
      var metric := MetricOrDefault(distance);
      SetSimilarity(dataModel, metric, nhoodSize);
      neighbourhood := Neighbourhood(lookup(similarity.value, userId), userId, minimal);
    }
  }
}
