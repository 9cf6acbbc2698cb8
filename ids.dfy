/** The identifier generator `id.create` (utils.js:84-103). Its clock reading
    (Date.now()) and its random suffix (Math.random in base 36) are parameters. */
module Ids {
  import opened Wrappers
  import Decimal

  /** The part of an id that orders it: the clock reading and the counter. */
  datatype IdKey = IdKey(time: nat, counter: nat)

  /** Lexicographic order on keys: by time, then by counter. */
  predicate Before(a: IdKey, b: IdKey) {
    a.time < b.time || (a.time == b.time && a.counter < b.counter)
  }

  /** The two captured variables of the generator. */
  datatype GenState = GenState(lastTime: nat, counter: nat)

  const Initial := GenState(0, 0)

  /** One call with clock reading `time`: same millisecond bumps the counter,
      any other reading restarts it at 0. */
  function Advance(s: GenState, time: nat): GenState {
    if time == s.lastTime then GenState(s.lastTime, s.counter + 1) else GenState(time, 0)
  }

  function KeyOf(s: GenState): IdKey {
    IdKey(s.lastTime, s.counter)
  }

  /** `${prefix}-${time}-${counter}-${random}` */
  function Format(prefix: string, key: IdKey, random: string): string {
    prefix + "-" + Decimal.Render(key.time) + "-" + Decimal.Render(key.counter) + "-" + random
  }

  /** Under a clock that does not go back, a call issues a key after the one
      the state last issued. */
  lemma AdvanceMovesForward(s: GenState, time: nat)
    requires s.lastTime <= time
    ensures Before(KeyOf(s), KeyOf(Advance(s, time)))
    ensures KeyOf(Advance(s, time)).time == time
  {
  }

  // ---------------------------------------------------------------------
  // Reading an id back

  datatype IdParts = IdParts(prefix: string, key: IdKey, random: string)

  /** Splits `s` at its last '-'. */
  function SplitLast(s: string): (r: Option<(string, string)>)
    ensures r.None? <==> '-' !in s
    ensures r.Some? ==> s == r.value.0 + "-" + r.value.1 && '-' !in r.value.1
    decreases |s|
  {
    if s == [] then None
    else if s[|s| - 1] == '-' then Some((s[..|s| - 1], []))
    else match SplitLast(s[..|s| - 1])
      case None => None
      case Some((front, back)) => Some((front, back + [s[|s| - 1]]))
  }

  /** Reads prefix, clock reading, counter and suffix off an id, from the
      right: the suffix, counter and reading hold no '-', the prefix may. */
  function Decode(id: string): Option<IdParts> {
    match SplitLast(id)
    case None => None
    case Some((rest, random)) =>
      match SplitLast(rest)
      case None => None
      case Some((rest', counterText)) =>
        match SplitLast(rest')
        case None => None
        case Some((prefix, timeText)) =>
          if Decimal.IsDigits(timeText) && Decimal.IsDigits(counterText) then
            Some(IdParts(prefix, IdKey(Decimal.Value(timeText), Decimal.Value(counterText)), random))
          else None
  }

  lemma {:induction false} SplitLastAt(front: string, back: string)
    requires '-' !in back
    ensures SplitLast(front + "-" + back) == Some((front, back))
    decreases |back|
  {
    var s := front + "-" + back;
    if back != [] {
      var b := back[..|back| - 1];
      assert s[..|s| - 1] == front + "-" + b;
      SplitLastAt(front, b);
      assert b + [back[|back| - 1]] == back;
    } else {
      assert s[..|s| - 1] == front;
    }
  }

  /** An id carries exactly the key it was formatted with: base-36 suffixes
      hold no '-', so the id decodes to its parts. */
  lemma DecodeFormat(prefix: string, key: IdKey, random: string)
    requires '-' !in random
    ensures Decode(Format(prefix, key, random)) == Some(IdParts(prefix, key, random))
  {
    var t, c := Decimal.Render(key.time), Decimal.Render(key.counter);
    assert '-' !in t by { assert !Decimal.IsDigit('-'); }
    assert '-' !in c by { assert !Decimal.IsDigit('-'); }
    assert Format(prefix, key, random) == (prefix + "-" + t + "-" + c) + "-" + random;
    SplitLastAt(prefix + "-" + t + "-" + c, random);
    assert prefix + "-" + t + "-" + c == (prefix + "-" + t) + "-" + c;
    SplitLastAt(prefix + "-" + t, c);
    SplitLastAt(prefix, t);
    Decimal.ValueOfRender(key.time);
    Decimal.ValueOfRender(key.counter);
  }

  /** Ids with different keys are different strings, whatever their prefixes
      and suffixes. */
  lemma DistinctKeysDistinctIds(p1: string, k1: IdKey, r1: string, p2: string, k2: IdKey, r2: string)
    requires '-' !in r1 && '-' !in r2
    requires k1 != k2
    ensures Format(p1, k1, r1) != Format(p2, k2, r2)
  {
    DecodeFormat(p1, k1, r1);
    DecodeFormat(p2, k2, r2);
  }

  // ---------------------------------------------------------------------
  // Runs of calls

  /** The keys issued by successive calls with clock readings `times`. */
  function Issue(s: GenState, times: seq<nat>): (keys: seq<IdKey>)
    ensures |keys| == |times|
    decreases |times|
  {
    if times == [] then []
    else
      var s' := Advance(s, times[0]);
      [KeyOf(s')] + Issue(s', times[1..])
  }

  ghost predicate NonDecreasing(times: seq<nat>) {
    forall i, j :: 0 <= i < j < |times| ==> times[i] <= times[j]
  }

  ghost predicate StrictlyIncreasing(keys: seq<IdKey>) {
    forall i, j :: 0 <= i < j < |keys| ==> Before(keys[i], keys[j])
  }

  /** Under a clock that never goes back, the issued keys strictly increase,
      each carries its call's clock reading, and all come after the key of the
      starting state. */
  lemma {:induction false} IssueIncreasing(s: GenState, times: seq<nat>)
    requires NonDecreasing(times)
    requires times != [] ==> s.lastTime <= times[0]
    ensures StrictlyIncreasing(Issue(s, times))
    ensures forall i :: 0 <= i < |times| ==> Issue(s, times)[i].time == times[i]
    ensures forall i :: 0 <= i < |times| ==> Before(KeyOf(s), Issue(s, times)[i])
    decreases |times|
  {
    if times != [] {
      var s' := Advance(s, times[0]);
      var keys := Issue(s, times);
      var rest := Issue(s', times[1..]);
      assert keys == [KeyOf(s')] + rest;
      IssueIncreasing(s', times[1..]);
      forall i, j | 0 <= i < j < |keys| ensures Before(keys[i], keys[j]) {
        if i > 0 {
          assert keys[i] == rest[i - 1] && keys[j] == rest[j - 1];
        } else {
          assert keys[j] == rest[j - 1];
        }
      }
      forall i | 0 <= i < |times| ensures keys[i].time == times[i] {
        if i > 0 {
          assert keys[i] == rest[i - 1];
        }
      }
    }
  }

  /** From the initial state, calls under a clock that never goes back return
      pairwise different ids. */
  lemma IssuedIdsDistinct(times: seq<nat>, prefixes: seq<string>, randoms: seq<string>, i: nat, j: nat)
    requires NonDecreasing(times)
    requires |prefixes| == |randoms| == |times|
    requires forall k :: 0 <= k < |randoms| ==> '-' !in randoms[k]
    requires i < j < |times|
    ensures var keys := Issue(Initial, times);
      Format(prefixes[i], keys[i], randoms[i]) != Format(prefixes[j], keys[j], randoms[j])
  {
    var keys := Issue(Initial, times);
    IssueIncreasing(Initial, times);
    assert Before(keys[i], keys[j]);
    DistinctKeysDistinctIds(prefixes[i], keys[i], randoms[i], prefixes[j], keys[j], randoms[j]);
  }

  /** Clock regression is not compensated: readings 5, 3, 5 issue the key
      (5, 0) twice, so the same prefix and suffix give the same id twice. */
  lemma ClockRegressionRepeatsKey(prefix: string, random: string)
    ensures var keys := Issue(Initial, [5, 3, 5]);
      keys[0] == keys[2] == IdKey(5, 0) &&
      Format(prefix, keys[0], random) == Format(prefix, keys[2], random)
  {
    var keys := Issue(Initial, [5, 3, 5]);
    assert [5, 3, 5][1..] == [3, 5] && [3, 5][1..] == [5];
    assert keys == [IdKey(5, 0), IdKey(3, 0), IdKey(5, 0)];
  }

  // ---------------------------------------------------------------------
  // The generator object

  /** The closure returned by the IIFE at utils.js:84: the captured
      `lastTime` and `counter`, and a ghost record of the keys issued. */
  class IdGenerator {
    var lastTime: nat
    var counter: nat
    ghost var issued: seq<IdKey>

    /** Before any call the captured variables hold their initial values;
        afterwards they hold the key of the last id issued. */
    ghost predicate Valid()
      reads this
    {
      if issued == [] then lastTime == 0 && counter == 0
      else issued[|issued| - 1] == IdKey(lastTime, counter)
    }

    ghost function State(): GenState
      reads this
    {
      GenState(lastTime, counter)
    }

    constructor ()
      ensures Valid() && State() == Initial && issued == []
    {
      lastTime, counter := 0, 0;
      issued := [];
    }

    /** `id.create(prefix)` with clock reading `time` and random suffix
        `random`. */
    method Create(prefix: string, time: nat, random: string) returns (id: string)
      requires Valid()
      modifies this
      ensures Valid()
      ensures State() == Advance(old(State()), time)
      ensures lastTime == time
      ensures counter == if time == old(lastTime) then old(counter) + 1 else 0
      ensures issued == old(issued) + [IdKey(lastTime, counter)]
      ensures id == Format(prefix, IdKey(lastTime, counter), random)
      ensures '-' !in random ==> Decode(id) == Some(IdParts(prefix, IdKey(time, counter), random))
      ensures old(lastTime) <= time && old(StrictlyIncreasing(issued)) ==> StrictlyIncreasing(issued)
    {
      if time == lastTime {
        counter := counter + 1;
      } else {
        counter := 0;
        lastTime := time;
      }
      issued := issued + [IdKey(lastTime, counter)];
      id := Format(prefix, IdKey(lastTime, counter), random);
      if '-' !in random {
        DecodeFormat(prefix, IdKey(time, counter), random);
      }
      if old(lastTime) <= time && old(StrictlyIncreasing(issued)) {
        AdvanceMovesForward(old(State()), time);
        var n := |issued| - 1;
        forall i, j | 0 <= i < j < |issued| ensures Before(issued[i], issued[j]) {
          if j == n && i < n - 1 {
            assert Before(issued[i], issued[n - 1]);
          }
        }
      }
    }
  }

  /** Two calls in the same millisecond return different ids. */
  method SameMillisecondClient(time: nat, r1: string, r2: string)
    requires '-' !in r1 && '-' !in r2
  {
    var g := new IdGenerator();
    var a := g.Create("id", time, r1);
    var first := g.counter;
    var b := g.Create("id", time, r2);
    assert g.counter == first + 1;
    DistinctKeysDistinctIds("id", IdKey(time, first), r1, "id", IdKey(time, first + 1), r2);
    assert a != b;
  }
}
