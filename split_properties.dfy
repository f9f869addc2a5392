/** What the splitter guarantees: the three splits partition the record
    positions, and each class's records land where its record count says. */
module SplitProperties {
  import opened Split

  /** All positions of the classes `cs`, class after class. */
  ghost function Gathered(codes: seq<int>, cs: seq<int>): seq<nat>
  {
    if cs == [] then [] else Gathered(codes, cs[..|cs| - 1]) + Positions(codes, cs[|cs| - 1])
  }

  /** The number of one-record classes among `classes[..i]`. */
  ghost function SinglesBefore(codes: seq<int>, classes: seq<int>, i: nat): nat
    requires i <= |classes|
  {
    if i == 0 then 0
    else SinglesBefore(codes, classes, i - 1) + if |Positions(codes, classes[i - 1])| == 1 then 1 else 0
  }

  lemma {:induction false} RangeCount(n: nat, x: nat)
    ensures multiset(Range(n))[x] == if x < n then 1 else 0
  {
    if n > 0 {
      RangeCount(n - 1, x);
      var init: seq<nat>, last: seq<nat> := Range(n - 1), [n - 1];
      assert Range(n) == init + last;
      assert multiset(init + last)[x] == multiset(init)[x] + multiset(last)[x];
    }
  }

  /** One more record at the end adds its position to its class only. */
  lemma PositionsSnoc(codes: seq<int>, v: int, c: int)
    ensures Positions(codes + [v], c) == Positions(codes, c) + if v == c then [|codes|] else []
  {
    assert (codes + [v])[..|codes|] == codes;
  }

  lemma {:induction false} GatheredOfNoRecords(cs: seq<int>)
    ensures Gathered([], cs) == []
  {
    if cs != [] {
      GatheredOfNoRecords(cs[..|cs| - 1]);
    }
  }

  lemma DistinctInit(cs: seq<int>)
    requires Distinct(cs) && cs != []
    ensures Distinct(cs[..|cs| - 1])
    ensures cs[|cs| - 1] !in cs[..|cs| - 1]
  {
    var init := cs[..|cs| - 1];
    forall k | 0 <= k < |init| ensures init[k] != cs[|cs| - 1] {
      assert init[k] == cs[k];
    }
  }

  lemma MemberInitOrLast(cs: seq<int>, v: int)
    requires cs != []
    ensures v in cs <==> v in cs[..|cs| - 1] || v == cs[|cs| - 1]
  {
    assert cs == cs[..|cs| - 1] + [cs[|cs| - 1]];
  }

  lemma AppendGrown(a: seq<nat>, a': seq<nat>, b: seq<nat>, b': seq<nat>, ma: multiset<nat>, mb: multiset<nat>)
    requires multiset(a') == multiset(a) + ma
    requires multiset(b') == multiset(b) + mb
    ensures multiset(a' + b') == multiset(a + b) + (ma + mb)
  {
  }

  lemma {:induction false} GatheredSnoc(codes: seq<int>, v: int, cs: seq<int>)
    requires Distinct(cs)
    ensures var added: multiset<nat> := if v in cs then multiset{|codes|} else multiset{};
            multiset(Gathered(codes + [v], cs)) == multiset(Gathered(codes, cs)) + added
  {
    if cs != [] {
      var init, c := cs[..|cs| - 1], cs[|cs| - 1];
      DistinctInit(cs);
      GatheredSnoc(codes, v, init);
      PositionsSnoc(codes, v, c);
      var addedInit: multiset<nat> := if v in init then multiset{|codes|} else multiset{};
      var addedLast: multiset<nat> := if v == c then multiset{|codes|} else multiset{};
      AppendGrown(Gathered(codes, init), Gathered(codes + [v], init),
                  Positions(codes, c), Positions(codes + [v], c), addedInit, addedLast);
      assert Gathered(codes + [v], cs) == Gathered(codes + [v], init) + Positions(codes + [v], c);
      assert Gathered(codes, cs) == Gathered(codes, init) + Positions(codes, c);
      MemberInitOrLast(cs, v);
      if v in cs {
        assert addedInit + addedLast == multiset{|codes|};
      } else {
        assert addedInit + addedLast == multiset{};
      }
    }
  }

  /** When the classes are distinct and cover every code, gathering their
      positions yields every record position exactly once. */
  lemma {:induction false} GatheredIsRange(codes: seq<int>, cs: seq<int>)
    requires Distinct(cs)
    requires forall k :: 0 <= k < |codes| ==> codes[k] in cs
    ensures multiset(Gathered(codes, cs)) == multiset(Range(|codes|))
  {
    if codes == [] {
      GatheredOfNoRecords(cs);
    } else {
      var n := |codes| - 1;
      var init, v := codes[..n], codes[n];
      assert codes == init + [v];
      GatheredIsRange(init, cs);
      GatheredSnoc(init, v, cs);
    }
  }

  /** The splits so far hand out exactly the positions of the classes done. */
  lemma {:induction false} SplitGathers(codes: seq<int>, classes: seq<int>, shuffle: seq<nat> -> seq<nat>, n: nat)
    requires IsPermuter(shuffle)
    requires n <= |classes|
    ensures var p := SplitUpTo(codes, classes, shuffle, n);
            multiset(p.train + p.dev + p.test) == multiset(Gathered(codes, classes[..n]))
  {
    if n > 0 {
      SplitGathers(codes, classes, shuffle, n - 1);
      SplitUpToNext(codes, classes, shuffle, n - 1);
      var p := SplitUpTo(codes, classes, shuffle, n - 1);
      var ps := Positions(codes, classes[n - 1]);
      var s := ClassShare(ps, shuffle(ps), p.counter);
      ClassSharePermutes(ps, shuffle(ps), p.counter);
      ThreeAppended(p.train, p.dev, p.test, s.train, s.dev, s.test);
      assert classes[..n][..n - 1] == classes[..n - 1];
      assert Gathered(codes, classes[..n]) == Gathered(codes, classes[..n - 1]) + ps;
    }
  }

  lemma ThreeAppended(a: seq<nat>, b: seq<nat>, c: seq<nat>, d: seq<nat>, e: seq<nat>, f: seq<nat>)
    ensures multiset((a + d) + (b + e) + (c + f)) == multiset(a + b + c) + multiset(d + e + f)
  {
  }

  /** The three splits partition the record positions: every position in
      `0 .. |codes|-1` appears exactly once across them, and nothing else
      does. This holds whenever `classes` lists distinct codes covering every
      record's code (as the sorted distinct codes do); a listed code with no
      record changes nothing. */
  lemma {:induction false} Partition(codes: seq<int>, classes: seq<int>, shuffle: seq<nat> -> seq<nat>)
    requires IsPermuter(shuffle)
    requires Distinct(classes)
    requires forall k :: 0 <= k < |codes| ==> codes[k] in classes
    ensures var r := Splits(codes, classes, shuffle);
            && multiset(r.train + r.dev + r.test) == multiset(Range(|codes|))
            && |r.train| + |r.dev| + |r.test| == |codes|
            && (forall x: nat :: x in r.train + r.dev + r.test <==> x < |codes|)
            && (forall x :: x in r.train ==> x !in r.dev && x !in r.test)
            && (forall x :: x in r.dev ==> x !in r.test)
  {
    var r := Splits(codes, classes, shuffle);
    SplitGathers(codes, classes, shuffle, |classes|);
    assert classes[..|classes|] == classes;
    GatheredIsRange(codes, classes);
    RangePartition(r.train, r.dev, r.test, |codes|);
  }

  /** Three lists that together are a permutation of `0 .. n-1` cover it and
      do not overlap. */
  lemma {:induction false} RangePartition(a: seq<nat>, b: seq<nat>, c: seq<nat>, n: nat)
    requires multiset(a + b + c) == multiset(Range(n))
    ensures |a| + |b| + |c| == n
    ensures forall x: nat :: x in a + b + c <==> x < n
    ensures forall x :: x in a ==> x !in b && x !in c
    ensures forall x :: x in b ==> x !in c
  {
    var all := a + b + c;
    assert |all| == |multiset(all)| == |multiset(Range(n))| == n;
    forall x: nat ensures x in all <==> x < n {
      RangeCount(n, x);
      assert x in all <==> x in multiset(all);
    }
    forall x | x in a || x in b
      ensures x in a ==> x !in b && x !in c
      ensures x in b ==> x !in c
    {
      RangeCount(n, x);
      assert multiset(all)[x] == multiset(a)[x] + multiset(b)[x] + multiset(c)[x];
    }
  }

  /** With distinct classes, a record of class `classes[i]` is in a split
      after `n` classes exactly when `i < n` and that class's own share put it
      there. */
  lemma {:induction false} LandsUpTo(codes: seq<int>, classes: seq<int>, shuffle: seq<nat> -> seq<nat>, n: nat, i: nat, x: nat)
    requires IsPermuter(shuffle)
    requires Distinct(classes)
    requires n <= |classes| && i < |classes|
    requires x in Positions(codes, classes[i])
    ensures var p := SplitUpTo(codes, classes, shuffle, n);
            var s := Contribution(codes, classes, shuffle, i);
            && (x in p.train <==> i < n && x in s.train)
            && (x in p.dev <==> i < n && x in s.dev)
            && (x in p.test <==> i < n && x in s.test)
  {
    if n > 0 {
      LandsUpTo(codes, classes, shuffle, n - 1, i, x);
      if n - 1 != i {
        OtherClassMisses(codes, classes, shuffle, n - 1, i, x);
      }
      SplitUpToNext(codes, classes, shuffle, n - 1);
      InGrown(SplitUpTo(codes, classes, shuffle, n), SplitUpTo(codes, classes, shuffle, n - 1),
              Contribution(codes, classes, shuffle, n - 1), Contribution(codes, classes, shuffle, i),
              x, i < n - 1, n - 1 == i, i < n);
    }
  }

  lemma InGrown(p: Progress, q: Progress, t: Share, own: Share, x: nat, before: bool, isOwn: bool, now: bool)
    requires p.train == q.train + t.train && p.dev == q.dev + t.dev && p.test == q.test + t.test
    requires && (x in q.train <==> before && x in own.train)
             && (x in q.dev <==> before && x in own.dev)
             && (x in q.test <==> before && x in own.test)
    requires isOwn ==> t == own
    requires !isOwn ==> x !in t.train && x !in t.dev && x !in t.test
    requires now == (before || isOwn)
    ensures && (x in p.train <==> now && x in own.train)
            && (x in p.dev <==> now && x in own.dev)
            && (x in p.test <==> now && x in own.test)
  {
  }

  /** With distinct classes, a class's share holds no record of another class. */
  lemma {:induction false} OtherClassMisses(codes: seq<int>, classes: seq<int>, shuffle: seq<nat> -> seq<nat>, j: nat, i: nat, x: nat)
    requires IsPermuter(shuffle)
    requires Distinct(classes)
    requires j < |classes| && i < |classes| && j != i
    requires x in Positions(codes, classes[i])
    ensures var s := Contribution(codes, classes, shuffle, j);
            x !in s.train && x !in s.dev && x !in s.test
  {
    var s := Contribution(codes, classes, shuffle, j);
    if x in s.train || x in s.dev || x in s.test {
      ContributionOwn(codes, classes, shuffle, j, x);
      PositionsCorrect(codes, classes[i]);
      assert false;
    }
  }

  /** A class hands out only its own positions. */
  lemma {:induction false} ContributionOwn(codes: seq<int>, classes: seq<int>, shuffle: seq<nat> -> seq<nat>, j: nat, x: nat)
    requires IsPermuter(shuffle)
    requires j < |classes|
    requires var s := Contribution(codes, classes, shuffle, j); x in s.train || x in s.dev || x in s.test
    ensures x < |codes| && codes[x] == classes[j]
  {
    var ps := Positions(codes, classes[j]);
    var s := Contribution(codes, classes, shuffle, j);
    ClassSharePermutes(ps, shuffle(ps), SplitUpTo(codes, classes, shuffle, j).counter);
    assert x in multiset(s.train + s.dev + s.test);
    assert x in ps;
    PositionsCorrect(codes, classes[j]);
  }

  /** In the final splits, a record of class `classes[i]` is exactly where
      that class's own share put it. */
  lemma {:induction false} Lands(codes: seq<int>, classes: seq<int>, shuffle: seq<nat> -> seq<nat>, i: nat, x: nat)
    requires IsPermuter(shuffle)
    requires Distinct(classes)
    requires i < |classes|
    requires x in Positions(codes, classes[i])
    ensures var r := Splits(codes, classes, shuffle);
            var s := Contribution(codes, classes, shuffle, i);
            && (x in r.train <==> x in s.train)
            && (x in r.dev <==> x in s.dev)
            && (x in r.test <==> x in s.test)
  {
    LandsUpTo(codes, classes, shuffle, |classes|, i, x);
  }

  /** The round-robin counter counts the one-record classes seen so far. */
  lemma {:induction false} CounterCountsSingles(codes: seq<int>, classes: seq<int>, shuffle: seq<nat> -> seq<nat>, i: nat)
    requires IsPermuter(shuffle)
    requires i <= |classes|
    ensures SplitUpTo(codes, classes, shuffle, i).counter == SinglesBefore(codes, classes, i)
  {
    if i > 0 {
      CounterCountsSingles(codes, classes, shuffle, i - 1);
    }
  }

  /** One-record classes go to train, dev, test, train, ... in strict
      rotation: the record of the class with `k` one-record classes before it
      is in train iff `k % 3 == 0`, in dev iff `k % 3 == 1`, in test iff
      `k % 3 == 2`. Classes of other sizes do not move the rotation. */
  lemma {:induction false} SingletonRotation(codes: seq<int>, classes: seq<int>, shuffle: seq<nat> -> seq<nat>, i: nat)
    requires IsPermuter(shuffle)
    requires Distinct(classes)
    requires i < |classes|
    requires |Positions(codes, classes[i])| == 1
    ensures var p := Positions(codes, classes[i])[0];
            var k := SinglesBefore(codes, classes, i);
            var r := Splits(codes, classes, shuffle);
            && (p in r.train <==> k % 3 == 0)
            && (p in r.dev <==> k % 3 == 1)
            && (p in r.test <==> k % 3 == 2)
  {
    var p := Positions(codes, classes[i])[0];
    CounterCountsSingles(codes, classes, shuffle, i);
    Lands(codes, classes, shuffle, i, p);
  }

  /** A two-record class puts its lower position in train and its higher one
      in test, and nothing in dev. */
  lemma {:induction false} PairAssignment(codes: seq<int>, classes: seq<int>, shuffle: seq<nat> -> seq<nat>, i: nat)
    requires IsPermuter(shuffle)
    requires Distinct(classes)
    requires i < |classes|
    requires |Positions(codes, classes[i])| == 2
    ensures var ps := Positions(codes, classes[i]);
            var r := Splits(codes, classes, shuffle);
            && ps[0] < ps[1]
            && ps[0] in r.train && ps[0] !in r.dev && ps[0] !in r.test
            && ps[1] in r.test && ps[1] !in r.train && ps[1] !in r.dev
  {
    var ps := Positions(codes, classes[i]);
    PositionsCorrect(codes, classes[i]);
    Lands(codes, classes, shuffle, i, ps[0]);
    Lands(codes, classes, shuffle, i, ps[1]);
  }

  /** A three-record class puts its positions, in ascending order, into
      train, dev and test. */
  lemma {:induction false} TripleAssignment(codes: seq<int>, classes: seq<int>, shuffle: seq<nat> -> seq<nat>, i: nat)
    requires IsPermuter(shuffle)
    requires Distinct(classes)
    requires i < |classes|
    requires |Positions(codes, classes[i])| == 3
    ensures var ps := Positions(codes, classes[i]);
            var r := Splits(codes, classes, shuffle);
            && ps[0] < ps[1] < ps[2]
            && ps[0] in r.train && ps[0] !in r.dev && ps[0] !in r.test
            && ps[1] in r.dev && ps[1] !in r.train && ps[1] !in r.test
            && ps[2] in r.test && ps[2] !in r.train && ps[2] !in r.dev
  {
    var ps := Positions(codes, classes[i]);
    PositionsCorrect(codes, classes[i]);
    Lands(codes, classes, shuffle, i, ps[0]);
    Lands(codes, classes, shuffle, i, ps[1]);
    Lands(codes, classes, shuffle, i, ps[2]);
  }

  /** A class of four or more records, once shuffled, gives its first
      `count / 3` positions to train, the next `count / 3` to dev and the rest
      to test; each split gets at least one, and test at least as many as
      train. */
  lemma {:induction false} ManyShare(ps: seq<nat>, shuffled: seq<nat>, counter: nat)
    requires |shuffled| == |ps| && multiset(shuffled) == multiset(ps)
    requires |ps| >= 4
    ensures var t := |ps| / 3;
            var s := ClassShare(ps, shuffled, counter);
            && |s.train| == t && |s.dev| == t && |s.test| == |ps| - 2 * t
            && 1 <= t <= |s.test|
            && s.train + s.dev + s.test == shuffled
            && multiset(s.train + s.dev + s.test) == multiset(ps)
  {
    var t := |ps| / 3;
    assert shuffled[..t] + shuffled[t..2 * t] + shuffled[2 * t..] == shuffled;
  }

  /** In the final splits, a record of a class of four or more is where its
      slice of the shuffled class put it. */
  lemma {:induction false} ManyAssignment(codes: seq<int>, classes: seq<int>, shuffle: seq<nat> -> seq<nat>, i: nat)
    requires IsPermuter(shuffle)
    requires Distinct(classes)
    requires i < |classes|
    requires |Positions(codes, classes[i])| >= 4
    ensures var ps := Positions(codes, classes[i]);
            var t := |ps| / 3;
            var sh := shuffle(ps);
            var r := Splits(codes, classes, shuffle);
            forall x :: x in ps ==>
              && (x in r.train <==> x in sh[..t])
              && (x in r.dev <==> x in sh[t..2 * t])
              && (x in r.test <==> x in sh[2 * t..])
  {
    var ps := Positions(codes, classes[i]);
    forall x | x in ps
      ensures var t := |ps| / 3;
              var sh := shuffle(ps);
              var r := Splits(codes, classes, shuffle);
              && (x in r.train <==> x in sh[..t])
              && (x in r.dev <==> x in sh[t..2 * t])
              && (x in r.test <==> x in sh[2 * t..])
    {
      Lands(codes, classes, shuffle, i, x);
    }
  }

  /** A listed code that no record carries contributes nothing and leaves the
      rotation where it was. */
  lemma {:induction false} AbsentClass(codes: seq<int>, classes: seq<int>, shuffle: seq<nat> -> seq<nat>, i: nat)
    requires IsPermuter(shuffle)
    requires i < |classes|
    requires classes[i] !in codes
    ensures Contribution(codes, classes, shuffle, i) == Share([], [], [])
    ensures SplitUpTo(codes, classes, shuffle, i + 1) == SplitUpTo(codes, classes, shuffle, i)
  {
    PositionsOfAbsent(codes, classes[i]);
  }

  lemma {:induction false} PositionsOfAbsent(codes: seq<int>, c: int)
    requires c !in codes
    ensures Positions(codes, c) == []
  {
    if codes != [] {
      var n := |codes| - 1;
      assert codes[n] in codes;
      PositionsOfAbsent(codes[..n], c);
    }
  }

  /** Later classes only append: the splits after `i` classes are a prefix of
      the splits after `n >= i` classes. */
  lemma {:induction false} AppendOnly(codes: seq<int>, classes: seq<int>, shuffle: seq<nat> -> seq<nat>, i: nat, n: nat)
    requires IsPermuter(shuffle)
    requires i <= n <= |classes|
    ensures var p := SplitUpTo(codes, classes, shuffle, i);
            var q := SplitUpTo(codes, classes, shuffle, n);
            p.train <= q.train && p.dev <= q.dev && p.test <= q.test
  {
    if i < n {
      AppendOnly(codes, classes, shuffle, i, n - 1);
      SplitUpToNext(codes, classes, shuffle, n - 1);
      var p := SplitUpTo(codes, classes, shuffle, i);
      var q := SplitUpTo(codes, classes, shuffle, n - 1);
      var ps := Positions(codes, classes[n - 1]);
      var s := ClassShare(ps, shuffle(ps), q.counter);
      PrefixGrows(p.train, q.train, s.train);
      PrefixGrows(p.dev, q.dev, s.dev);
      PrefixGrows(p.test, q.test, s.test);
    }
  }

  lemma PrefixGrows(a: seq<nat>, b: seq<nat>, c: seq<nat>)
    requires a <= b
    ensures a <= b + c
  {
    assert (b + c)[..|a|] == b[..|a|];
  }

  /** Each split lists the classes' shares in class order: the share of
      `classes[i]` follows directly what the classes before it contributed. */
  lemma {:induction false} ClassOrder(codes: seq<int>, classes: seq<int>, shuffle: seq<nat> -> seq<nat>, i: nat)
    requires IsPermuter(shuffle)
    requires i < |classes|
    ensures var p := SplitUpTo(codes, classes, shuffle, i);
            var s := Contribution(codes, classes, shuffle, i);
            var r := Splits(codes, classes, shuffle);
            p.train + s.train <= r.train && p.dev + s.dev <= r.dev && p.test + s.test <= r.test
  {
    AppendOnly(codes, classes, shuffle, i + 1, |classes|);
  }
}
