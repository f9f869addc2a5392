/** The stratified train/dev/test splitter of the staging step.

    Records are identified by their position in the table; each carries an
    integer class code. Classes are visited in the order of `classes` (the
    caller passes the sorted distinct codes), and every class hands its record
    positions to the three splits according to how many records it has.

    The seeded in-place shuffle applied to classes of four or more records is a
    parameter: any function that returns a permutation of its argument. */
module Split {

  /** What one class contributes to each split. */
  datatype Share = Share(train: seq<nat>, dev: seq<nat>, test: seq<nat>)

  /** The three accumulators and the round-robin counter after some classes. */
  datatype Progress = Progress(train: seq<nat>, dev: seq<nat>, test: seq<nat>, counter: nat)

  ghost predicate Ascending(s: seq<int>)
  {
    forall i, j :: 0 <= i < j < |s| ==> s[i] < s[j]
  }

  ghost predicate Distinct(s: seq<int>)
  {
    forall i, j :: 0 <= i < j < |s| ==> s[i] != s[j]
  }

  /** The shuffle only reorders: for every input it returns a permutation.
      The multiset half is triggered only where a proof speaks of multisets. */
  ghost predicate IsPermuter(shuffle: seq<nat> -> seq<nat>)
  {
    && (forall s: seq<nat> :: |shuffle(s)| == |s|)
    && (forall s: seq<nat> {:trigger multiset(shuffle(s))} :: multiset(shuffle(s)) == multiset(s))
  }

  /** Positions `0 .. n-1` in order. */
  function Range(n: nat): (r: seq<nat>)
    ensures |r| == n
    ensures forall k :: 0 <= k < n ==> r[k] == k
  {
    if n == 0 then [] else Range(n - 1) + [n - 1]
  }

  /** The positions whose code is `c`, in ascending order (what `np.where`
      yields for `codes == c`). */
  function Positions(codes: seq<int>, c: int): seq<nat>
    decreases |codes|
  {
    if codes == [] then []
    else
      var n := |codes| - 1;
      Positions(codes[..n], c) + (if codes[n] == c then [n] else [])
  }

  /** `Positions` lists exactly the positions holding `c`, each once, in
      ascending order. */
  lemma {:induction false} PositionsCorrect(codes: seq<int>, c: int)
    ensures var ps := Positions(codes, c);
            && (forall k :: 0 <= k < |ps| ==> ps[k] < |codes| && codes[ps[k]] == c)
            && (forall x :: 0 <= x < |codes| && codes[x] == c ==> x in ps)
            && Ascending(ps)
    decreases |codes|
  {
    if codes != [] {
      var n := |codes| - 1;
      PositionsCorrect(codes[..n], c);
    }
  }

  /** The contribution of one class with positions `ps`: `shuffled` is those
      positions after the shuffle, `counter` the number of one-record classes
      met before it. */
  function ClassShare(ps: seq<nat>, shuffled: seq<nat>, counter: nat): Share
    requires |shuffled| == |ps|
  {
    if |ps| == 1 then
      if counter % 3 == 0 then Share(ps, [], [])
      else if counter % 3 == 1 then Share([], ps, [])
      else Share([], [], ps)
    else if |ps| == 2 then Share([ps[0]], [], [ps[1]])
    else if |ps| == 3 then Share([ps[0]], [ps[1]], [ps[2]])
    else
      var t := |ps| / 3;
      Share(shuffled[..t], shuffled[t..2 * t], shuffled[2 * t..])
  }

  /** A class's share hands out each of its positions exactly once. */
  lemma ClassSharePermutes(ps: seq<nat>, shuffled: seq<nat>, counter: nat)
    requires |shuffled| == |ps| && multiset(shuffled) == multiset(ps)
    ensures var r := ClassShare(ps, shuffled, counter);
            multiset(r.train + r.dev + r.test) == multiset(ps)
  {
    if |ps| == 2 {
      assert ps == [ps[0]] + [ps[1]];
    } else if |ps| == 3 {
      assert ps == [ps[0]] + [ps[1]] + [ps[2]];
    } else if |ps| != 1 {
      var t := |ps| / 3;
      assert shuffled[..t] + shuffled[t..2 * t] == shuffled[..2 * t];
      assert shuffled[..2 * t] + shuffled[2 * t..] == shuffled;
    }
  }

  /** The state of the splitter once the first `n` classes are done. */
  ghost function SplitUpTo(codes: seq<int>, classes: seq<int>, shuffle: seq<nat> -> seq<nat>, n: nat): Progress
    requires IsPermuter(shuffle)
    requires n <= |classes|
    decreases n, 0
  {
    if n == 0 then Progress([], [], [], 0)
    else
      var p := SplitUpTo(codes, classes, shuffle, n - 1);
      var s := Contribution(codes, classes, shuffle, n - 1);
      var single := |Positions(codes, classes[n - 1])| == 1;
      Progress(p.train + s.train, p.dev + s.dev, p.test + s.test,
               if single then p.counter + 1 else p.counter)
  }

  /** One more class: its share is appended, the counter moves on a
      one-record class. */
  lemma SplitUpToNext(codes: seq<int>, classes: seq<int>, shuffle: seq<nat> -> seq<nat>, i: nat)
    requires IsPermuter(shuffle)
    requires i < |classes|
    ensures var p := SplitUpTo(codes, classes, shuffle, i);
            var s := Contribution(codes, classes, shuffle, i);
            SplitUpTo(codes, classes, shuffle, i + 1)
            == Progress(p.train + s.train, p.dev + s.dev, p.test + s.test,
                        if |Positions(codes, classes[i])| == 1 then p.counter + 1 else p.counter)
  {
  }

  /** What the class `classes[i]` adds to the three splits. */
  ghost function Contribution(codes: seq<int>, classes: seq<int>, shuffle: seq<nat> -> seq<nat>, i: nat): Share
    requires IsPermuter(shuffle)
    requires i < |classes|
    decreases i, 1
  {
    var ps := Positions(codes, classes[i]);
    ClassShare(ps, shuffle(ps), SplitUpTo(codes, classes, shuffle, i).counter)
  }

  /** The three splits once every class is done. */
  ghost function Splits(codes: seq<int>, classes: seq<int>, shuffle: seq<nat> -> seq<nat>): Share
    requires IsPermuter(shuffle)
  {
    var p := SplitUpTo(codes, classes, shuffle, |classes|);
    Share(p.train, p.dev, p.test)
  }

  /** `for j in range(lo, hi): acc.append(s[j])`. */
  method AppendRange(acc: seq<nat>, s: seq<nat>, lo: nat, hi: nat) returns (r: seq<nat>)
    requires lo <= hi <= |s|
    ensures r == acc + s[lo..hi]
  {
    r := acc;
    for j := lo to hi
      invariant r == acc + s[lo..j]
    {
      r := r + [s[j]];
    }
  }

  /** The positions whose code is `c`, in ascending order. */
  method Where(codes: seq<int>, c: int) returns (ps: seq<nat>)
    ensures ps == Positions(codes, c)
  {
    ps := [];
    for k := 0 to |codes|
      invariant ps == Positions(codes[..k], c)
    {
      assert codes[..k + 1][..k] == codes[..k];
      if codes[k] == c {
        ps := ps + [k];
      }
    }
    assert codes[..|codes|] == codes;
  }

  /** The body of the loop over classes: hands the positions of one class to
      the three splits by its record count. `shuffle` is applied only to a
      class of four or more records (or none). */
  method AssignClass(train: seq<nat>, dev: seq<nat>, test: seq<nat>, counter: nat,
                     classIndices: seq<nat>, shuffle: seq<nat> -> seq<nat>)
    returns (train': seq<nat>, dev': seq<nat>, test': seq<nat>, counter': nat)
    requires |shuffle(classIndices)| == |classIndices|
    ensures var s := ClassShare(classIndices, shuffle(classIndices), counter);
            && train' == train + s.train && dev' == dev + s.dev && test' == test + s.test
            && counter' == if |classIndices| == 1 then counter + 1 else counter
  {
    train', dev', test', counter' := train, dev, test, counter;
    var count := |classIndices|;
    if count == 1 {
      if counter' % 3 == 0 {
        train' := AppendRange(train', classIndices, 0, count);
      } else if counter' % 3 == 1 {
        dev' := AppendRange(dev', classIndices, 0, count);
      } else {
        test' := AppendRange(test', classIndices, 0, count);
      }
      counter' := counter' + 1;
    } else if count == 2 {
      train' := train' + [classIndices[0]];
      test' := test' + [classIndices[1]];
    } else if count == 3 {
      train' := train' + [classIndices[0]];
      dev' := dev' + [classIndices[1]];
      test' := test' + [classIndices[2]];
    } else {
      var shuffled := shuffle(classIndices);
      var trainSplit := count / 3;
      var devSplit := trainSplit + count / 3;
      train' := AppendRange(train', shuffled, 0, trainSplit);
      dev' := AppendRange(dev', shuffled, trainSplit, devSplit);
      test' := AppendRange(test', shuffled, devSplit, count);
    }
  }

  /** Partitions the record positions of `codes` into train, dev and test,
      visiting the classes in the order of `classes`. */
  method SplitIndices(codes: seq<int>, classes: seq<int>, shuffle: seq<nat> -> seq<nat>)
    returns (train: seq<nat>, dev: seq<nat>, test: seq<nat>)
    requires IsPermuter(shuffle)
    ensures Share(train, dev, test) == Splits(codes, classes, shuffle)
  {
    train, dev, test := [], [], [];
    var counter := 0;
    for i := 0 to |classes|
      invariant Progress(train, dev, test, counter) == SplitUpTo(codes, classes, shuffle, i)
    {
      var cls := classes[i];
      var classIndices := Where(codes, cls);
      train, dev, test, counter := AssignClass(train, dev, test, counter, classIndices, shuffle);
      SplitUpToNext(codes, classes, shuffle, i);
    }
  }
}
