/** The user-by-product utility matrix (`handler/utility_matrix.py`): a row
    per distinct buyer, a column per distinct brand/product key, and a 1 in
    each cell whose user bought that product. The sales are given as a
    sequence instead of being read from the database. */
module UtilityMatrices {
  import opened Collections

  /** A sale record: who bought which product of which brand. */
  datatype Sale = Sale(user: string, brand: string, product: string)

  /** `gen_bp_key(brand, product)`: the brand and the product joined by
      "###". */
  function GenBpKey(brand: string, product: string): (r: string)
    ensures |r| == |brand| + 3 + |product|
    ensures r[..|brand|] == brand
    ensures r[|brand|..|brand| + 3] == "###"
    ensures r[|brand| + 3..] == product
  {
    brand + "###" + product
  }

  /** The key determines brand and product as long as brands contain no
      '#': the brand is everything before the first '#'. */
  lemma GenBpKeyInjective(b1: string, p1: string, b2: string, p2: string)
    requires '#' !in b1 && '#' !in b2
    requires GenBpKey(b1, p1) == GenBpKey(b2, p2)
    ensures b1 == b2 && p1 == p2
  {
    if |b1| < |b2| {
      HashAfterShorterBrand(b1, p1, b2, p2);
    } else if |b2| < |b1| {
      HashAfterShorterBrand(b2, p2, b1, p1);
    }
  }

  /** When two keys agree and one brand is shorter, the longer brand holds
      the '#' that follows the shorter one. */
  lemma HashAfterShorterBrand(b1: string, p1: string, b2: string, p2: string)
    requires |b1| < |b2| && GenBpKey(b1, p1) == GenBpKey(b2, p2)
    ensures '#' in b2
  {
    var k := GenBpKey(b1, p1);
    assert k[|b1|] == '#';
    assert b2[|b1|] == k[|b1|];
  }

  /** Without that condition two different sales can share a key. */
  lemma GenBpKeyCollision()
    ensures GenBpKey("a#", "b") == GenBpKey("a", "#b")
    ensures ("a#", "b") != ("a", "#b")
  {
    assert GenBpKey("a#", "b") == "a####b";
    assert GenBpKey("a", "#b") == "a####b";
  }

  /** The sale users, in sale order (with repetitions). */
  function Users(sales: seq<Sale>): (r: seq<string>)
    ensures |r| == |sales|
    ensures forall k :: 0 <= k < |sales| ==> r[k] == sales[k].user
  {
    seq(|sales|, k requires 0 <= k < |sales| => sales[k].user)
  }

  /** The sale keys, in sale order (with repetitions). */
  function Keys(sales: seq<Sale>): (r: seq<string>)
    ensures |r| == |sales|
    ensures forall k :: 0 <= k < |sales| ==> r[k] == GenBpKey(sales[k].brand, sales[k].product)
  {
    seq(|sales|, k requires 0 <= k < |sales| => GenBpKey(sales[k].brand, sales[k].product))
  }

  /** `if x not in l: l.append(x)`. */
  function AddNew(l: seq<string>, x: string): (r: seq<string>)
    ensures x in r
    ensures Distinct(l) ==> Distinct(r)
  {
    if x in l then l else l + [x]
  }

  /** The list after `AddNew` of each element of xs in turn, starting from acc. */
  function AppendNew(acc: seq<string>, xs: seq<string>): (r: seq<string>)
    ensures |acc| <= |r| && r[..|acc|] == acc
  {
    if |xs| == 0 then acc
    else AddNew(AppendNew(acc, xs[..|xs| - 1]), xs[|xs| - 1])
  }

  /** `AppendNew` keeps exactly the elements of acc and xs, and adds no
      duplicate to a duplicate-free list. */
  lemma {:induction false} AppendNewMembers(acc: seq<string>, xs: seq<string>)
    ensures forall z :: z in AppendNew(acc, xs) <==> z in acc || z in xs
    ensures Distinct(acc) ==> Distinct(AppendNew(acc, xs))
  {
    if |xs| > 0 {
      AppendNewMembers(acc, xs[..|xs| - 1]);
      assert xs == xs[..|xs| - 1] + [xs[|xs| - 1]];
    }
  }

  /** One more element of xs is one more `AddNew`. */
  lemma AppendNewStep(acc: seq<string>, xs: seq<string>, i: nat)
    requires i < |xs|
    ensures AppendNew(acc, xs[..i + 1]) == AddNew(AppendNew(acc, xs[..i]), xs[i])
  {
    assert xs[..i + 1][..i] == xs[..i];
  }

  /** The elements of r after the prefix acc are taken from xs, are not
      in acc, and come in the order of their first occurrence in xs. */
  ghost predicate FirstOccurrenceOrder(acc: seq<string>, xs: seq<string>, r: seq<string>)
  {
    && (forall i :: |acc| <= i < |r| ==> r[i] in xs && r[i] !in acc)
    && (forall i, j :: |acc| <= i < j < |r| ==> IndexOf(xs, r[i]) < IndexOf(xs, r[j]))
  }

  /** The elements `AppendNew` adds to a duplicate-free list come in the
      order of their first occurrence in xs. */
  lemma {:induction false} AppendNewFirstOccurrence(acc: seq<string>, xs: seq<string>)
    requires Distinct(acc)
    ensures FirstOccurrenceOrder(acc, xs, AppendNew(acc, xs))
  {
    if |xs| > 0 {
      var front, x := xs[..|xs| - 1], xs[|xs| - 1];
      assert xs == front + [x];
      AppendNewFirstOccurrence(acc, front);
      var r' := AppendNew(acc, front);
      forall i | |acc| <= i < |r'|
        ensures IndexOf(xs, r'[i]) == IndexOf(front, r'[i])
      {
        IndexOfPrefix(front, [x], r'[i]);
      }
      var r := AppendNew(acc, xs);
      if x in r' {
        assert r == r';
        forall i, j | |acc| <= i < j < |r|
          ensures IndexOf(xs, r[i]) < IndexOf(xs, r[j])
        {
          assert IndexOf(front, r'[i]) < IndexOf(front, r'[j]);
        }
      } else {
        assert r == r' + [x];
        AppendNewMembers(acc, front);
        assert x !in front;
        assert IndexOf(xs, x) == |front|;
        forall i | |acc| <= i < |r'|
          ensures IndexOf(xs, r[i]) < IndexOf(xs, x)
        {
          assert r[i] == r'[i] && r'[i] in front;
        }
      }
    }
  }

  /** Some sale has this user and this key. */
  ghost predicate Sold(sales: seq<Sale>, user: string, key: string)
  {
    exists k :: 0 <= k < |sales| && sales[k].user == user && GenBpKey(sales[k].brand, sales[k].product) == key
  }

  /** Extending the sales by one adds exactly that sale's (user, key) pair. */
  lemma SoldExtend(sales: seq<Sale>, i: nat, user: string, key: string)
    requires i < |sales|
    ensures Sold(sales[..i + 1], user, key) <==>
            Sold(sales[..i], user, key) || (sales[i].user == user && GenBpKey(sales[i].brand, sales[i].product) == key)
  {
    if Sold(sales[..i + 1], user, key) && !(sales[i].user == user && GenBpKey(sales[i].brand, sales[i].product) == key) {
      var k :| 0 <= k < i + 1 && sales[..i + 1][k].user == user
               && GenBpKey(sales[..i + 1][k].brand, sales[..i + 1][k].product) == key;
      assert k < i && sales[..i][k] == sales[k];
    }
    if Sold(sales[..i], user, key) {
      var k :| 0 <= k < i && sales[..i][k].user == user && GenBpKey(sales[..i][k].brand, sales[..i][k].product) == key;
      assert sales[..i + 1][k] == sales[k];
    }
    if sales[i].user == user && GenBpKey(sales[i].brand, sales[i].product) == key {
      assert sales[..i + 1][i] == sales[i];
    }
  }

  /** `UtilityMatrix`: the users (samples), the keys (features) and the
      0/1 matrix relating them. */
  class UtilityMatrix {
    var samples: seq<string>
    var features: seq<string>
    var matrix: array2?<real>

    /** Neither list holds a value twice, and a built matrix has a row per
        sample and a column per feature. */
    ghost predicate Valid()
      reads this
    {
      Distinct(samples) && Distinct(features)
      && (matrix != null ==> matrix.Length0 == |samples| && matrix.Length1 == |features|)
    }

    /** `__init__`: empty lists and no matrix. */
    constructor ()
      ensures Valid()
      ensures samples == [] && features == [] && matrix == null
    {
      samples := [];
      features := [];
      matrix := null;
    }

    /** The body of `load_data_from_db`, given the sales. The first pass adds
        every new key and every new user; then a fresh zero matrix of the new
        sizes is allocated, and the cell of each sale's row and column is set
        to 1. */
    method LoadData(sales: seq<Sale>)
      requires Valid()
      modifies this
      ensures Valid()
      ensures samples == AppendNew(old(samples), Users(sales))
      ensures features == AppendNew(old(features), Keys(sales))
      ensures FirstOccurrenceOrder(old(samples), Users(sales), samples)
      ensures FirstOccurrenceOrder(old(features), Keys(sales), features)
      ensures matrix != null && fresh(matrix)
      ensures matrix.Length0 == |samples| && matrix.Length1 == |features|
      ensures forall r, c :: 0 <= r < |samples| && 0 <= c < |features| ==>
                matrix[r, c] == if Sold(sales, samples[r], features[c]) then 1.0 else 0.0
      ensures forall r, c :: 0 <= r < |samples| && 0 <= c < |features| ==> matrix[r, c] == 0.0 || matrix[r, c] == 1.0
      ensures forall k :: 0 <= k < |sales| ==>
                sales[k].user in samples && GenBpKey(sales[k].brand, sales[k].product) in features
    {
      CollectKeys(sales);
      AppendNewMembers(old(samples), Users(sales));
      AppendNewMembers(old(features), Keys(sales));
      AppendNewFirstOccurrence(old(samples), Users(sales));
      AppendNewFirstOccurrence(old(features), Keys(sales));

      forall k | 0 <= k < |sales|
        ensures sales[k].user in samples && GenBpKey(sales[k].brand, sales[k].product) in features
      {
        assert Users(sales)[k] in Users(sales) && Keys(sales)[k] in Keys(sales);
      }
      var m := new real[|samples|, |features|]((_, _) => 0.0);
      matrix := m;
      MarkSales(m, sales);
    }

    /** The first pass of `load_data_from_db`: each sale's key is appended
        to the features and its user to the samples unless already there. */
    method CollectKeys(sales: seq<Sale>)
      modifies this
      ensures samples == AppendNew(old(samples), Users(sales))
      ensures features == AppendNew(old(features), Keys(sales))
      ensures matrix == old(matrix)
    {
      var i := 0;
      while i < |sales|
        invariant 0 <= i <= |sales|
        invariant samples == AppendNew(old(samples), Users(sales)[..i])
        invariant features == AppendNew(old(features), Keys(sales)[..i])
        invariant matrix == old(matrix)
      {
        AppendNewStep(old(features), Keys(sales), i);
        AppendNewStep(old(samples), Users(sales), i);
        var feature := GenBpKey(sales[i].brand, sales[i].product);
        if feature !in features {
          features := features + [feature];
        }
        if sales[i].user !in samples {
          samples := samples + [sales[i].user];
        }
        i := i + 1;
      }
      assert Users(sales)[..i] == Users(sales);
      assert Keys(sales)[..i] == Keys(sales);
    }

    /** The second pass of `load_data_from_db`: for each sale, the cell at
        the index of its user and the index of its key becomes 1. */
    method MarkSales(m: array2<real>, sales: seq<Sale>)
      requires Distinct(samples) && Distinct(features)
      requires m.Length0 == |samples| && m.Length1 == |features|
      requires forall k :: 0 <= k < |sales| ==>
                 sales[k].user in samples && GenBpKey(sales[k].brand, sales[k].product) in features
      requires forall r, c :: 0 <= r < |samples| && 0 <= c < |features| ==> m[r, c] == 0.0
      modifies m
      ensures forall r, c :: 0 <= r < |samples| && 0 <= c < |features| ==>
                m[r, c] == if Sold(sales, samples[r], features[c]) then 1.0 else 0.0
    {
      var i := 0;
      while i < |sales|
        invariant 0 <= i <= |sales|
        invariant forall r, c :: 0 <= r < |samples| && 0 <= c < |features| ==>
                    m[r, c] == if Sold(sales[..i], samples[r], features[c]) then 1.0 else 0.0
      {
        var feature := GenBpKey(sales[i].brand, sales[i].product);
        var row := IndexOf(samples, sales[i].user);
        var col := IndexOf(features, feature);
        m[row, col] := 1.0;
        forall r, c | 0 <= r < |samples| && 0 <= c < |features|
          ensures m[r, c] == if Sold(sales[..i + 1], samples[r], features[c]) then 1.0 else 0.0
        {
          SoldExtend(sales, i, samples[r], features[c]);
          IndexOfDistinct(samples, r);
          IndexOfDistinct(features, c);
        }
        i := i + 1;
      }
      assert sales[..i] == sales;
    }
  }
}
