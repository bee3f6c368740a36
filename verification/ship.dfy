/** A container ship: a list of containers and a tracked total weight that
    only adding increases. Containers are values here; the serial numbers a
    shared counter hands out keep distinct containers distinct. */
module ContainerShips {
  import opened Outcome
  import opened Containers
  import opened Subsequences

  datatype Ship = Ship(maxWeight: real, currentWeight: real, containers: seq<Container>)

  /** What a container adds to the tracked weight: its own weight and its cargo. */
  function Gross(c: Container): real {
    c.weight + c.cargoMass
  }

  function TotalGross(cs: seq<Container>): real {
    if |cs| == 0 then 0.0 else TotalGross(cs[..|cs| - 1]) + Gross(cs[|cs| - 1])
  }

  lemma TotalGrossAppend(cs: seq<Container>, c: Container)
    ensures TotalGross(cs + [c]) == TotalGross(cs) + Gross(c)
  {
    assert (cs + [c])[..|cs|] == cs;
  }

  predicate Fits(s: Ship, c: Container) {
    s.currentWeight + Gross(c) < s.maxWeight
  }

  /** The ship after an add, how many containers it took, and whether the
      add stopped at one that did not fit. */
  datatype AddOutcome = AddOutcome(ship: Ship, accepted: nat, overfilled: bool)

  /** `AddContainers`: containers are taken in order while each fits
      strictly below the maximum weight; the first that does not fit stops
      the add, and those before it stay on board. */
  function AddContainers(s: Ship, cs: seq<Container>): (r: AddOutcome)
    ensures r.accepted <= |cs|
    ensures r.overfilled <==> r.accepted < |cs|
    ensures r.ship.maxWeight == s.maxWeight
    ensures r.ship.containers == s.containers + cs[..r.accepted]
    ensures r.ship.currentWeight == s.currentWeight + TotalGross(cs[..r.accepted])
    ensures r.overfilled ==> !Fits(r.ship, cs[r.accepted])
    ensures r.accepted > 0 ==> r.ship.currentWeight < s.maxWeight
    decreases |cs|
  {
    if |cs| == 0 then AddOutcome(s, 0, false)
    else if !Fits(s, cs[0]) then AddOutcome(s, 0, true)
    else
      var s1 := Ship(s.maxWeight, s.currentWeight + Gross(cs[0]), s.containers + [cs[0]]);
      var rest := AddContainers(s1, cs[1..]);
      AcceptFirst(s, cs, rest.accepted);
      AddOutcome(rest.ship, rest.accepted + 1, rest.overfilled)
  }

  /** Taking the first container and then `n` of the rest takes the first
      `n + 1`, in containers and in tracked weight. */
  lemma AcceptFirst(s: Ship, cs: seq<Container>, n: nat)
    requires n < |cs|
    ensures (s.containers + [cs[0]]) + cs[1..][..n] == s.containers + cs[..n + 1]
    ensures s.currentWeight + Gross(cs[0]) + TotalGross(cs[1..][..n]) == s.currentWeight + TotalGross(cs[..n + 1])
  {
    assert cs[..n + 1] == [cs[0]] + cs[1..][..n];
    TotalGrossPrepend(cs[0], cs[1..][..n]);
  }

  lemma {:induction false} TotalGrossPrepend(c: Container, cs: seq<Container>)
    ensures TotalGross([c] + cs) == Gross(c) + TotalGross(cs)
  {
    if |cs| > 0 {
      var init := cs[..|cs| - 1];
      assert ([c] + cs)[..|cs|] == [c] + init;
      TotalGrossPrepend(c, init);
    }
  }

  /** Removes the first element equal to `c`, if any. */
  function RemoveFirst<T(==)>(xs: seq<T>, c: T): (r: seq<T>)
    ensures c !in xs ==> r == xs
  {
    if |xs| == 0 then []
    else if xs[0] == c then xs[1..]
    else [xs[0]] + RemoveFirst(xs[1..], c)
  }

  /** Exactly one copy of `c` goes, if there is one. */
  lemma {:induction false} RemoveFirstMultiset<T>(xs: seq<T>, c: T)
    ensures multiset(RemoveFirst(xs, c)) == multiset(xs) - multiset{c}
  {
    if |xs| > 0 {
      assert xs == [xs[0]] + xs[1..];
      if xs[0] != c {
        RemoveFirstMultiset(xs[1..], c);
      }
    }
  }

  /** The position of the first container with the serial number. */
  function FindSerial(xs: seq<Container>, serial: string): (r: Option<nat>)
    ensures r.Some? ==> r.value < |xs| && xs[r.value].serial == serial
                        && forall k :: 0 <= k < r.value ==> xs[k].serial != serial
    ensures r.None? ==> forall k :: 0 <= k < |xs| ==> xs[k].serial != serial
  {
    if |xs| == 0 then None
    else if xs[0].serial == serial then Some(0)
    else
      match FindSerial(xs[1..], serial)
      case None => None
      case Some(i) => Some(i + 1)
  }

  /** Removes the first container with the serial number, if any. */
  function RemoveBySerial(xs: seq<Container>, serial: string): (r: seq<Container>)
    ensures FindSerial(xs, serial).None? ==> r == xs
    ensures FindSerial(xs, serial).Some? ==>
              var i := FindSerial(xs, serial).value;
              r == xs[..i] + xs[i + 1..]
  {
    if |xs| == 0 then []
    else if xs[0].serial == serial then xs[1..]
    else
      var rest := RemoveBySerial(xs[1..], serial);
      if FindSerial(xs[1..], serial).None? then [xs[0]] + rest
      else
        ConsDrop(xs, FindSerial(xs[1..], serial).value);
        [xs[0]] + rest
  }

  /** Dropping position `i` of the tail is dropping position `i + 1`. */
  lemma ConsDrop<T>(xs: seq<T>, i: nat)
    requires i + 1 < |xs|
    ensures [xs[0]] + (xs[1..][..i] + xs[1..][i + 1..]) == xs[..i + 1] + xs[i + 2..]
  {
    assert [xs[0]] + xs[1..][..i] == xs[..i + 1];
    assert xs[1..][i + 1..] == xs[i + 2..];
  }

  function SerialsOf(cs: seq<Container>): set<string> {
    set c | c in cs :: c.serial
  }

  /** No two containers share a serial number, as holds for containers
      built through the shared counter. */
  ghost predicate SerialsUnique(xs: seq<Container>) {
    forall i, j :: 0 <= i < j < |xs| ==> xs[i].serial != xs[j].serial
  }

  /** `RemoveContainers`: for each given container, the container on board
      that is that object goes. Serial numbers stand for object identity, so
      the first container with the same serial is removed; absent ones are
      ignored. The others keep their order and the tracked weight stays as
      it was. */
  function RemoveContainers(s: Ship, cs: seq<Container>): (r: Ship)
    ensures r.maxWeight == s.maxWeight && r.currentWeight == s.currentWeight
    ensures Subsequence(r.containers, s.containers)
    ensures |s.containers| - |cs| <= |r.containers| <= |s.containers|
    ensures forall x :: x in s.containers && x.serial !in SerialsOf(cs) ==> x in r.containers
    ensures SerialsUnique(s.containers) ==>
              forall x :: x in r.containers <==> x in s.containers && x.serial !in SerialsOf(cs)
    decreases |cs|
  {
    if |cs| == 0 then
      SubsequenceRefl(s.containers);
      s
    else
      var s1 := s.(containers := RemoveBySerial(s.containers, cs[0].serial));
      var r := RemoveContainers(s1, cs[1..]);
      RemoveThenRestOrder(s.containers, cs[0].serial, |cs| - 1, r.containers);
      SerialsOfCons(cs);
      RemoveThenRestKeeps(s.containers, cs[0].serial, SerialsOf(cs[1..]), r.containers);
      RemoveThenRestExact(s.containers, cs[0].serial, SerialsOf(cs[1..]), r.containers);
      r
  }

  lemma SerialsOfCons(cs: seq<Container>)
    requires |cs| > 0
    ensures SerialsOf(cs) == {cs[0].serial} + SerialsOf(cs[1..])
  {
    assert cs == [cs[0]] + cs[1..];
  }

  /** Removing by `serial` and then dropping at most `n` more in order is an
      in-order removal of at most `n + 1`. */
  lemma RemoveThenRestOrder(xs: seq<Container>, serial: string, n: nat, ys: seq<Container>)
    requires Subsequence(ys, RemoveBySerial(xs, serial))
    requires |RemoveBySerial(xs, serial)| - n <= |ys| <= |RemoveBySerial(xs, serial)|
    ensures Subsequence(ys, xs)
    ensures |xs| - (n + 1) <= |ys| <= |xs|
  {
    RemoveStepOrder(xs, serial);
    SubsequenceTrans(ys, RemoveBySerial(xs, serial), xs);
  }

  /** A container whose serial is neither `serial` nor in `rest` survives
      both removals. */
  lemma RemoveThenRestKeeps(xs: seq<Container>, serial: string, rest: set<string>, ys: seq<Container>)
    requires forall x :: x in RemoveBySerial(xs, serial) && x.serial !in rest ==> x in ys
    ensures forall x :: x in xs && x.serial !in {serial} + rest ==> x in ys
  {
    RemoveStepKeeps(xs, serial);
  }

  /** With unique serials, what survives both removals is exactly what has
      neither `serial` nor a serial in `rest`. */
  lemma RemoveThenRestExact(xs: seq<Container>, serial: string, rest: set<string>, ys: seq<Container>)
    requires SerialsUnique(RemoveBySerial(xs, serial)) ==>
               forall x :: x in ys <==> x in RemoveBySerial(xs, serial) && x.serial !in rest
    ensures SerialsUnique(xs) ==>
              forall x :: x in ys <==> x in xs && x.serial !in {serial} + rest
  {
    if SerialsUnique(xs) {
      RemoveStepKeeps(xs, serial);
      RemoveStepUnique(xs, serial);
    }
  }

  /** One removal step drops at most one container and keeps the order. */
  lemma RemoveStepOrder(xs: seq<Container>, serial: string)
    ensures Subsequence(RemoveBySerial(xs, serial), xs)
    ensures |xs| - 1 <= |RemoveBySerial(xs, serial)| <= |xs|
  {
    match FindSerial(xs, serial)
    case None =>
      SubsequenceRefl(xs);
    case Some(i) =>
      SubsequenceDrop(xs, i);
  }

  /** One removal step keeps every container with another serial and adds
      none. */
  lemma RemoveStepKeeps(xs: seq<Container>, serial: string)
    ensures forall x :: x in xs && x.serial != serial ==> x in RemoveBySerial(xs, serial)
    ensures forall x :: x in RemoveBySerial(xs, serial) ==> x in xs
  {
    match FindSerial(xs, serial)
    case None =>
    case Some(i) =>
      DropKeepsOthers(xs, i);
      DropAddsNothing(xs, i);
  }

  /** Dropping position `i` brings in no new element. */
  lemma DropAddsNothing<T>(xs: seq<T>, i: nat)
    requires i < |xs|
    ensures forall x :: x in xs[..i] + xs[i + 1..] ==> x in xs
  {
    var r := xs[..i] + xs[i + 1..];
    assert forall k :: 0 <= k < |r| ==> r[k] == xs[if k < i then k else k + 1];
  }

  /** With unique serials, one removal step keeps them unique and leaves no
      container with the removed serial. */
  lemma RemoveStepUnique(xs: seq<Container>, serial: string)
    requires SerialsUnique(xs)
    ensures SerialsUnique(RemoveBySerial(xs, serial))
    ensures forall x :: x in RemoveBySerial(xs, serial) ==> x.serial != serial
  {
    match FindSerial(xs, serial)
    case None =>
    case Some(i) =>
      DropKeepsUnique(xs, i);
  }

  /** Dropping position `i` keeps every element unequal to the one there. */
  lemma DropKeepsOthers(xs: seq<Container>, i: nat)
    requires i < |xs|
    ensures forall x :: x in xs && x.serial != xs[i].serial ==> x in xs[..i] + xs[i + 1..]
  {
    var r := xs[..i] + xs[i + 1..];
    forall x | x in xs && x.serial != xs[i].serial
      ensures x in r
    {
      var k :| 0 <= k < |xs| && xs[k] == x;
      if k < i {
        assert r[k] == x;
      } else {
        assert r[k - 1] == x;
      }
    }
  }

  /** With unique serials, dropping position `i` keeps them unique and
      removes the only container with that serial. */
  lemma DropKeepsUnique(xs: seq<Container>, i: nat)
    requires i < |xs| && SerialsUnique(xs)
    ensures SerialsUnique(xs[..i] + xs[i + 1..])
    ensures forall x :: x in xs[..i] + xs[i + 1..] ==> x.serial != xs[i].serial
  {
    var r := xs[..i] + xs[i + 1..];
    assert forall k :: 0 <= k < |r| ==> r[k] == xs[if k < i then k else k + 1];
  }

  /** A container loaded after it went on board is still the same
      container: removing the caller's loaded copy takes it off the ship. */
  lemma RemoveLoadedContainer()
    ensures var c := Container("KON-G-1", Gas(10.0, false), 5.0, 50.0, 20.0, 100.0, 0.0);
            var s := Ship(200.0, Gross(c), [c]);
            RemoveContainers(s, [c.(cargoMass := 30.0)]).containers == []
  {
    var c := Container("KON-G-1", Gas(10.0, false), 5.0, 50.0, 20.0, 100.0, 0.0);
    assert FindSerial([c], c.serial) == Some(0);
  }

  /** `ReplaceContainers`: only the first container with the serial number
      is swapped; nothing happens when none has it. */
  function ReplaceContainers(s: Ship, serial: string, c: Container): (r: Ship)
    ensures r.maxWeight == s.maxWeight && r.currentWeight == s.currentWeight
    ensures |r.containers| == |s.containers|
    ensures FindSerial(s.containers, serial).None? ==> r == s
    ensures FindSerial(s.containers, serial).Some? ==>
              var i := FindSerial(s.containers, serial).value;
              && r.containers[i] == c
              && forall k :: 0 <= k < |s.containers| && k != i ==> r.containers[k] == s.containers[k]
  {
    match FindSerial(s.containers, serial)
    case None => s
    case Some(i) => s.(containers := s.containers[i := c])
  }

  /** A replacement swaps one container for another in the ship's contents,
      and the gross weight on board changes by the difference, while the
      tracked weight stays as it was. */
  lemma ReplaceContainersSwaps(s: Ship, serial: string, c: Container)
    requires FindSerial(s.containers, serial).Some?
    ensures var i := FindSerial(s.containers, serial).value;
            var r := ReplaceContainers(s, serial, c);
            && multiset(r.containers) == multiset(s.containers) - multiset{s.containers[i]} + multiset{c}
            && TotalGross(r.containers) == TotalGross(s.containers) - Gross(s.containers[i]) + Gross(c)
  {
    var i := FindSerial(s.containers, serial).value;
    UpdateMultiset(s.containers, i, c);
    TotalGrossUpdate(s.containers, i, c);
  }

  lemma UpdateMultiset<T>(xs: seq<T>, i: nat, v: T)
    requires i < |xs|
    ensures multiset(xs[i := v]) == multiset(xs) - multiset{xs[i]} + multiset{v}
  {
    assert xs == xs[..i] + [xs[i]] + xs[i + 1..];
    assert xs[i := v] == xs[..i] + [v] + xs[i + 1..];
  }

  lemma {:induction false} TotalGrossUpdate(cs: seq<Container>, i: nat, c: Container)
    requires i < |cs|
    ensures TotalGross(cs[i := c]) == TotalGross(cs) - Gross(cs[i]) + Gross(c)
  {
    var n := |cs| - 1;
    var ds := cs[i := c];
    if i == n {
      assert ds[..n] == cs[..n];
    } else {
      assert ds[..n] == cs[..n][i := c];
      TotalGrossUpdate(cs[..n], i, c);
    }
  }

  /** Both ships after a move, and whether the receiving ship overfilled. */
  datatype MoveOutcome = MoveOutcome(from: Ship, to: Ship, overfilled: bool)

  /** `MoveContainerToOtherShip`: the first container with the serial number
      is added to the other ship and then removed here. When the other ship
      cannot take it, neither ship changes. This ship's tracked weight does
      not go down. */
  function MoveContainer(s: Ship, serial: string, other: Ship): (r: MoveOutcome)
    ensures FindSerial(s.containers, serial).None? ==> r == MoveOutcome(s, other, false)
    ensures r.overfilled ==> r.from == s && r.to == other
    ensures FindSerial(s.containers, serial).Some? ==>
              var i := FindSerial(s.containers, serial).value;
              && (r.overfilled <==> !Fits(other, s.containers[i]))
              && (!r.overfilled ==>
                    && r.from == s.(containers := s.containers[..i] + s.containers[i + 1..])
                    && r.to == Ship(other.maxWeight, other.currentWeight + Gross(s.containers[i]), other.containers + [s.containers[i]]))
  {
    match FindSerial(s.containers, serial)
    case None => MoveOutcome(s, other, false)
    case Some(i) =>
      var c := s.containers[i];
      var added := AddContainers(other, [c]);
      assert [c][..1] == [c];
      TotalGrossAppend([], c);
      if added.overfilled then MoveOutcome(s, other, true)
      else
        RemoveFirstAt(s.containers, c, i);
        MoveOutcome(s.(containers := RemoveFirst(s.containers, c)), added.ship, false)
  }

  /** Removing the first element equal to `c`, when `c` first occurs at
      `i`, removes position `i`. */
  lemma {:induction false} RemoveFirstAt<T>(xs: seq<T>, c: T, i: nat)
    requires i < |xs| && xs[i] == c && forall k :: 0 <= k < i ==> xs[k] != c
    ensures RemoveFirst(xs, c) == xs[..i] + xs[i + 1..]
  {
    if i > 0 {
      var tail := xs[1..];
      assert RemoveFirst(xs, c) == [xs[0]] + RemoveFirst(tail, c);
      forall k | 0 <= k < i - 1
        ensures tail[k] != c
      {
        assert tail[k] == xs[k + 1];
      }
      RemoveFirstAt(tail, c, i - 1);
      assert xs[..i] == [xs[0]] + tail[..i - 1];
      assert xs[i + 1..] == tail[i..];
    }
  }

  /** A move keeps every container on one of the two ships. */
  lemma MoveConservesContainers(s: Ship, serial: string, other: Ship)
    ensures var r := MoveContainer(s, serial, other);
            multiset(r.from.containers) + multiset(r.to.containers) == multiset(s.containers) + multiset(other.containers)
  {
    var r := MoveContainer(s, serial, other);
    if FindSerial(s.containers, serial).Some? && !r.overfilled {
      var i := FindSerial(s.containers, serial).value;
      assert s.containers == s.containers[..i] + [s.containers[i]] + s.containers[i + 1..];
    }
  }

  /** The sample program's ship of maximum weight 100: the first
      container (75 kg with its cargo) is taken, the second would reach 125
      kg and stops the add, and the first stays on board. */
  lemma SampleOverfilledShip()
    ensures var cs := [Container("KON-L-1", Liquid(true), 5.0, 50.0, 20.0, 50.0, 25.0),
                       Container("KON-L-2", Liquid(false), 5.0, 50.0, 20.0, 50.0, 0.0)];
            var r := AddContainers(Ship(100.0, 0.0, []), cs);
            r.overfilled && r.accepted == 1 && r.ship.containers == [cs[0]]
  {
    var cs := [Container("KON-L-1", Liquid(true), 5.0, 50.0, 20.0, 50.0, 25.0),
               Container("KON-L-2", Liquid(false), 5.0, 50.0, 20.0, 50.0, 0.0)];
    var s1 := Ship(100.0, 75.0, [cs[0]]);
    assert AddContainers(s1, cs[1..]) == AddOutcome(s1, 0, true);
  }
}
