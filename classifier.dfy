/** Nearest-class selection (`handler/classifier.py`): the row of the class
    matrix with the smallest cosine distance to a user's vector. The distance
    is a function the caller supplies; `None` stands for the NaN it returns
    on a zero vector, a score every comparison rejects. */
module Classifiers {
  import opened Wrappers

  /** Indexing row 0 of a class matrix without rows. */
  datatype Error = IndexError

  /** The score is a number and `bound > score` holds. */
  predicate Below(score: Option<real>, bound: real)
  {
    score.Some? && score.value < bound
  }

  /** k is the index `classify` settles on: when some score is below the
      initial 2, the first index holding the smallest defined score;
      otherwise 0. */
  ghost predicate IsFirstMinimum(scores: seq<Option<real>>, k: nat)
  {
    if exists i :: 0 <= i < |scores| && Below(scores[i], 2.0) then
      && k < |scores|
      && Below(scores[k], 2.0)
      && (forall i :: 0 <= i < |scores| && scores[i].Some? ==> scores[k].value <= scores[i].value)
      && (forall i :: 0 <= i < k && scores[i].Some? ==> scores[i].value > scores[k].value)
    else
      k == 0
  }

  /** The score of each class row against the user's vector. */
  function Scores(userArray: seq<real>, userClass: seq<seq<real>>, cosSim: (seq<real>, seq<real>) -> Option<real>)
    : (r: seq<Option<real>>)
    ensures |r| == |userClass|
    ensures forall i :: 0 <= i < |userClass| ==> r[i] == cosSim(userArray, userClass[i])
  {
    seq(|userClass|, i requires 0 <= i < |userClass| => cosSim(userArray, userClass[i]))
  }

  /** At most one index is the first minimum. */
  lemma FirstMinimumUnique(scores: seq<Option<real>>, k1: nat, k2: nat)
    requires IsFirstMinimum(scores, k1) && IsFirstMinimum(scores, k2)
    ensures k1 == k2
  {
  }

  /** Equal best scores resolve to the lower index. */
  lemma FirstMinimumTies(scores: seq<Option<real>>, k: nat, i: nat, j: nat)
    requires IsFirstMinimum(scores, k)
    requires i < j < |scores| && Below(scores[i], 2.0) && scores[i] == scores[j]
    ensures k != j
  {
    assert scores[k].value <= scores[i].value;
  }

  /** `Classifier`: the class centres, one row per class. */
  class Classifier {
    const userClass: seq<seq<real>>

    /** `__init__(user_class)`. */
    constructor (userClass: seq<seq<real>>)
      ensures this.userClass == userClass
    {
      this.userClass := userClass;
    }

    /** `classify(user_array)`: starting from the sentinel score 2 and index
        0, each row whose score is below the best so far becomes the best;
        the best row is returned. Without rows the final indexing fails. */
    method Classify(userArray: seq<real>, cosSim: (seq<real>, seq<real>) -> Option<real>)
      returns (r: Result<seq<real>, Error>)
      ensures r.Failure? <==> |userClass| == 0
      ensures r.Success? ==>
                exists k: nat :: IsFirstMinimum(Scores(userArray, userClass, cosSim), k) && k < |userClass| && r.value == userClass[k]
    {
      ghost var scores := Scores(userArray, userClass, cosSim);
      var minScore := 2.0;
      var classIndex := 0;
      var row := 0;
      while row < |userClass|
        invariant 0 <= row <= |userClass|
        invariant classIndex <= row && (row > 0 ==> classIndex < row)
        invariant minScore <= 2.0
        invariant minScore < 2.0 ==> classIndex < row && scores[classIndex] == Some(minScore)
        invariant minScore == 2.0 ==> classIndex == 0 && forall i :: 0 <= i < row ==> !Below(scores[i], 2.0)
        invariant forall i :: 0 <= i < row && scores[i].Some? ==> minScore <= scores[i].value
        invariant forall i :: 0 <= i < classIndex && scores[i].Some? ==> scores[i].value > minScore
      {
        var score := cosSim(userArray, userClass[row]);
        if score.Some? && minScore > score.value {
          minScore := score.value;
          classIndex := row;
        }
        row := row + 1;
      }
      if |userClass| == 0 {
        return Failure(IndexError);
      }
      assert IsFirstMinimum(scores, classIndex);
      return Success(userClass[classIndex]);
    }
  }
}
