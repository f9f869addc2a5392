/** The computational part of the staging step: the encoded class codes of the
    cleaned records are split into train, dev and test by position, and the
    class-weight table is built from the train records' codes.

    Downloading, cleaning, label encoding and uploading are outside the model:
    the input is the column of encoded codes, one per record, in table order. */
module Staging {
  import opened Split
  import opened SplitProperties
  import opened Weights

  /** The codes below `n` that occur in `codes`, ascending. */
  function UniqueBelow(codes: seq<nat>, n: nat): (u: seq<nat>)
    ensures forall v :: v in u <==> v < n && v in codes
    ensures forall k :: 0 <= k < |u| ==> u[k] < n
    ensures Ascending(u)
  {
    if n == 0 then []
    else UniqueBelow(codes, n - 1) + if n - 1 in codes then [n - 1] else []
  }

  /** The sorted distinct codes (`np.unique`). */
  function Unique(codes: seq<nat>): (u: seq<nat>)
    ensures Ascending(u)
    ensures forall v :: v in u <==> v in codes
  {
    if codes == [] then [] else UniqueBelow(codes, MaxCode(codes) + 1)
  }

  /** The codes of the records at positions `idx`, in that order (the
      `class_encoded` column of `data.iloc[idx]`). */
  function Labels(codes: seq<nat>, idx: seq<nat>): (r: seq<nat>)
    requires forall k :: 0 <= k < |idx| ==> idx[k] < |codes|
    ensures |r| == |idx|
    ensures forall k :: 0 <= k < |r| ==> r[k] == codes[idx[k]]
  {
    if idx == [] then [] else [codes[idx[0]]] + Labels(codes, idx[1..])
  }

  /** Splitting by the sorted distinct codes partitions the record positions. */
  lemma {:induction false} UniquePartition(codes: seq<nat>, shuffle: seq<nat> -> seq<nat>)
    requires IsPermuter(shuffle)
    ensures var r := Splits(codes, Unique(codes), shuffle);
            && multiset(r.train + r.dev + r.test) == multiset(Range(|codes|))
            && |r.train| + |r.dev| + |r.test| == |codes|
            && (forall x: nat :: x in r.train + r.dev + r.test <==> x < |codes|)
            && (forall x :: x in r.train ==> x !in r.dev && x !in r.test)
            && (forall x :: x in r.dev ==> x !in r.test)
  {
    var classes := Unique(codes);
    assert forall k :: 0 <= k < |codes| ==> codes[k] in classes;
    Partition(codes, classes, shuffle);
  }

  /** The train split is empty only when there is no record at all: the
      smallest code always puts at least one record into train. */
  lemma {:induction false} TrainEmptyIffNoRecords(codes: seq<nat>, shuffle: seq<nat> -> seq<nat>)
    requires IsPermuter(shuffle)
    ensures Splits(codes, Unique(codes), shuffle).train == [] <==> codes == []
  {
    var classes := Unique(codes);
    if codes == [] {
      assert classes == [];
    } else {
      assert codes[0] in classes;
      var ps := Positions(codes, classes[0]);
      PositionsCorrect(codes, classes[0]);
      assert classes[0] in codes;
      var x :| 0 <= x < |codes| && codes[x] == classes[0];
      assert x in ps;
      var s := Contribution(codes, classes, shuffle, 0);
      assert s == ClassShare(ps, shuffle(ps), 0);
      assert s.train != [];
      ClassOrder(codes, classes, shuffle, 0);
    }
  }

  /** The staging step over the encoded codes: the sorted distinct codes, the
      three splits, and the class-weight table of the train records, which is
      absent exactly when there is no record. */
  method Preprocess(codes: seq<nat>, shuffle: seq<nat> -> seq<nat>)
    returns (train: seq<nat>, dev: seq<nat>, test: seq<nat>, weights: Option<map<nat, real>>)
    requires IsPermuter(shuffle)
    ensures Share(train, dev, test) == Splits(codes, Unique(codes), shuffle)
    ensures multiset(train + dev + test) == multiset(Range(|codes|))
    ensures forall k :: 0 <= k < |train| ==> train[k] < |codes|
    ensures weights == ClassWeights(Labels(codes, train))
    ensures weights.None? <==> codes == []
  {
    var classes := Unique(codes);
    train, dev, test := SplitIndices(codes, classes, shuffle);
    UniquePartition(codes, shuffle);
    TrainEmptyIffNoRecords(codes, shuffle);
    assert forall k :: 0 <= k < |train| ==> train[k] in train + dev + test;
    var trainCodes := Labels(codes, train);
    weights := ClassWeights(trainCodes);
  }

  /** The table is keyed by the train codes only: with codes `[0, 1]`, code 0
      goes to train and code 1 to dev, so code 1 has no entry at all. */
  lemma {:induction false} DevOnlyCodeHasNoWeight(codes: seq<nat>, shuffle: seq<nat> -> seq<nat>)
    requires IsPermuter(shuffle)
    requires codes == [0, 1]
    ensures Splits(codes, Unique(codes), shuffle) == Share([0], [1], [])
    ensures var w := ClassWeights(Labels(codes, [0]));
            w.Some? && 0 in w.value && 1 !in w.value
  {
    UniqueOfZeroOne();
    SplitsOfZeroOne(shuffle);
    assert Labels(codes, [0]) == [0];
    assert MaxCode([0]) == 0;
  }

  lemma UniqueOfZeroOne()
    ensures Unique([0, 1]) == [0, 1]
  {
    var codes: seq<nat> := [0, 1];
    assert codes[1..] == [1];
    assert MaxCode(codes) == 1;
    assert 0 in codes && 1 in codes;
    assert UniqueBelow(codes, 0) == [];
    assert UniqueBelow(codes, 1) == [0];
    assert UniqueBelow(codes, 2) == [0, 1];
  }

  lemma SplitsOfZeroOne(shuffle: seq<nat> -> seq<nat>)
    requires IsPermuter(shuffle)
    ensures Splits([0, 1], [0, 1], shuffle) == Share([0], [1], [])
  {
    var codes: seq<int> := [0, 1];
    assert codes[..1] == [0];
    assert Positions(codes, 0) == [0];
    assert Positions(codes, 1) == [1];
    SplitUpToNext(codes, [0, 1], shuffle, 0);
    SplitUpToNext(codes, [0, 1], shuffle, 1);
  }
}
