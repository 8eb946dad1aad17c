/** The login throttle one process keeps (src/auth.js:92-95, 131-149): a map of
    attempts by identity, in insertion order, bounded by evicting the oldest
    entry. */
module LoginThrottle {

  type Key = nat

  /** Milliseconds. */
  type Time = int

  const MAX_ATTEMPTS: nat := 8
  const WINDOW: Time := 15 * 60 * 1000
  const MAX_IDENTITIES: nat := 10_000

  datatype Attempt = Attempt(count: nat, first: Time)

  /** `order` lists the keys as they were inserted; overwriting an entry leaves
      its place. */
  datatype State = State(order: seq<Key>, attempts: map<Key, Attempt>)

  datatype Event =
    | Consume(key: Key, now: Time)
    | Clear(key: Key, now: Time)
    | Reset(now: Time)

  ghost predicate DistinctKeys(keys: seq<Key>) {
    forall i, j | 0 <= i < j < |keys| :: keys[i] != keys[j]
  }

  ghost predicate Valid(s: State) {
    && DistinctKeys(s.order)
    && (forall key :: key in s.order <==> key in s.attempts)
    && (forall key | key in s.attempts :: s.attempts[key].count >= 1)
    && |s.order| <= MAX_IDENTITIES
  }

  function Without(keys: seq<Key>, key: Key): seq<Key> {
    if keys == [] then []
    else if keys[0] == key then keys[1..]
    else [keys[0]] + Without(keys[1..], key)
  }

  function Delete(s: State, key: Key): State {
    State(Without(s.order, key), s.attempts - {key})
  }

  /** Does an attempt of this key start a new window? */
  predicate Opens(s: State, key: Key, now: Time) {
    key !in s.attempts || now - s.attempts[key].first > WINDOW
  }

  /** A new window, before the bound on the identities is applied. */
  function Opened(s: State, key: Key, now: Time): State {
    State(if key in s.attempts then s.order else s.order + [key], s.attempts[key := Attempt(1, now)])
  }

  predicate Accepts(s: State, key: Key, now: Time) {
    Opens(s, key, now) || s.attempts[key].count < MAX_ATTEMPTS
  }

  function Step(s: State, e: Event): State {
    match e
    case Consume(key, now) =>
      if Opens(s, key, now) then
        var grown := Opened(s, key, now);
        if |grown.order| > MAX_IDENTITIES then Delete(grown, grown.order[0]) else grown
      else
        s.(attempts := s.attempts[key := s.attempts[key].(count := s.attempts[key].count + 1)])
    case Clear(key, _) => Delete(s, key)
    case Reset(_) => State([], map[])
  }

  function Run(s: State, events: seq<Event>): State {
    if events == [] then s else Step(Run(s, events[..|events| - 1]), events[|events| - 1])
  }

  lemma RunMore(s: State, events: seq<Event>, e: Event)
    ensures Run(s, []) == s && Run(s, events + [e]) == Step(Run(s, events), e)
  {
    assert (events + [e])[..|events|] == events;
  }

  lemma WithoutStep(keys: seq<Key>, i: nat, key: Key)
    requires i < |keys| && keys[i] != key
    ensures keys[..i] + Without(keys[i..], key) == keys[..i + 1] + Without(keys[i + 1..], key)
  {
    assert keys[i..][1..] == keys[i + 1..];
  }

  lemma WithoutFound(keys: seq<Key>, i: nat, key: Key)
    requires i <= |keys|
    ensures keys[..i] + Without(keys[i..], key) ==
      if i == |keys| then keys
      else if keys[i] == key then keys[..i] + keys[i + 1..]
      else keys[..i] + Without(keys[i..], key)
  {
    if i < |keys| {
      assert keys[i..][1..] == keys[i + 1..];
    }
  }

  class Throttle {
    var order: seq<Key>
    var attempts: map<Key, Attempt>

    ghost function View(): State
      reads this
    {
      State(order, attempts)
    }

    constructor ()
      ensures View() == State([], map[]) && Valid(View())
    {
      order, attempts := [], map[];
    }

    method DeleteKey(key: Key)
      modifies this
      ensures View() == Delete(old(View()), key)
    {
      var i := 0;
      while i < |order| && order[i] != key
        invariant 0 <= i <= |order| && View() == old(View())
        invariant Without(order, key) == order[..i] + Without(order[i..], key)
      {
        WithoutStep(order, i, key);
        i := i + 1;
      }
      WithoutFound(order, i, key);
      if i < |order| { order := order[..i] + order[i + 1..]; }
      attempts := attempts - {key};
    }

    /** True when the attempt may proceed, false when it is refused. */
    method ConsumeLoginAttempt(key: Key, now: Time) returns (accepted: bool)
      requires Valid(View())
      modifies this
      ensures View() == Step(old(View()), Consume(key, now)) && Valid(View())
      ensures accepted <==> Accepts(old(View()), key, now)
      ensures accepted <==>
        key !in old(attempts) || now - old(attempts)[key].first > 900_000 || old(attempts)[key].count < 8
    {
      StepValid(View(), Consume(key, now));
      if key !in attempts || now - attempts[key].first > WINDOW {
        if key !in attempts { order := order + [key]; }
        attempts := attempts[key := Attempt(1, now)];
        if |order| > MAX_IDENTITIES {
          DeleteKey(order[0]);
        }
        return true;
      }
      var entry := attempts[key];
      attempts := attempts[key := Attempt(entry.count + 1, entry.first)];
      return entry.count + 1 <= MAX_ATTEMPTS;
    }

    method ClearLoginAttempts(key: Key)
      requires Valid(View())
      modifies this
      ensures View() == Delete(old(View()), key) && Valid(View())
      ensures attempts == old(attempts) - {key}
      ensures forall other :: other in order <==> other in old(order) && other != key
    {
      StepValid(View(), Clear(key, 0));
      DeleteKey(key);
    }

    method ResetLoginThrottle()
      modifies this
      ensures View() == State([], map[]) && Valid(View())
    {
      order, attempts := [], map[];
    }
  }

  // ------------------------------------------------------------------
  // The bound on the identities
  // ------------------------------------------------------------------

  lemma {:induction false} WithoutShape(keys: seq<Key>, key: Key)
    requires DistinctKeys(keys)
    ensures DistinctKeys(Without(keys, key))
    ensures forall k :: k in Without(keys, key) <==> k in keys && k != key
    ensures |Without(keys, key)| == |keys| - (if key in keys then 1 else 0)
  {
    if keys != [] {
      assert keys == [keys[0]] + keys[1..];
      if keys[0] != key {
        WithoutShape(keys[1..], key);
        assert keys[0] !in Without(keys[1..], key);
      }
    }
  }

  /** After every call the map is in step with its order and holds at most ten
      thousand entries. */
  lemma StepValid(s: State, e: Event)
    requires Valid(s)
    ensures Valid(Step(s, e))
  {
    match e
    case Consume(key, now) =>
      if Opens(s, key, now) && key !in s.attempts { InsertValid(s, key, now); }
    case Clear(key, _) => WithoutShape(s.order, key);
    case _ =>
  }

  lemma GrownShape(s: State, key: Key, now: Time)
    requires Valid(s) && key !in s.attempts
    ensures var grown := Opened(s, key, now);
      && DistinctKeys(grown.order)
      && (forall k :: k in grown.order <==> k in grown.attempts)
      && (forall k | k in grown.attempts :: grown.attempts[k].count >= 1)
      && |grown.order| == |s.order| + 1
      && grown.order[0] == if s.order == [] then key else s.order[0]
  {
  }

  lemma InsertValid(s: State, key: Key, now: Time)
    requires Valid(s) && key !in s.attempts
    ensures Valid(Step(s, Consume(key, now)))
  {
    GrownShape(s, key, now);
    var grown := Opened(s, key, now);
    hide Opened, Without;
    WithoutShape(grown.order, grown.order[0]);
  }

  lemma {:induction false} RunValid(s: State, events: seq<Event>)
    requires Valid(s)
    ensures Valid(Run(s, events))
  {
    if events != [] {
      RunValid(s, events[..|events| - 1]);
      StepValid(Run(s, events[..|events| - 1]), events[|events| - 1]);
    }
  }

  /** What an attempt leaves: a new window or one more in the open one, and every
      other entry but the oldest of a full map, where a new key needs its room. */
  lemma ConsumedExactly(s: State, key: Key, now: Time)
    requires Valid(s)
    ensures var t := Step(s, Consume(key, now));
      && key in t.attempts
      && t.attempts[key] == (if key !in s.attempts || now - s.attempts[key].first > 900_000 then Attempt(1, now)
                             else Attempt(s.attempts[key].count + 1, s.attempts[key].first))
      && forall other | other != key ::
           && (other in t.attempts <==>
                 other in s.attempts && !(key !in s.attempts && |s.order| == 10_000 && other == s.order[0]))
           && (other in t.attempts ==> t.attempts[other] == s.attempts[other])
  {
    if key !in s.attempts {
      GrownShape(s, key, now);
    }
    hide Without, DistinctKeys;
  }

  // ------------------------------------------------------------------
  // Eviction
  // ------------------------------------------------------------------

  /** Does the event put a key into the map that was not there? */
  predicate Enters(s: State, e: Event, key: Key) {
    e.Consume? && e.key == key && key !in s.attempts
  }

  /** When the key last entered the map, counting events from the empty map. */
  ghost function EnteredAt(events: seq<Event>, key: Key): int {
    if events == [] then -1
    else if Enters(Run(State([], map[]), events[..|events| - 1]), events[|events| - 1], key) then |events| - 1
    else EnteredAt(events[..|events| - 1], key)
  }

  ghost predicate InEntryOrder(events: seq<Event>, keys: seq<Key>) {
    forall i, j | 0 <= i < j < |keys| :: EnteredAt(events, keys[i]) < EnteredAt(events, keys[j])
  }

  lemma {:induction false} EnteredBefore(events: seq<Event>, key: Key)
    ensures EnteredAt(events, key) < |events|
  {
    if events != [] {
      EnteredBefore(events[..|events| - 1], key);
    }
  }

  lemma {:induction false} WithoutKeepsOrder(events: seq<Event>, keys: seq<Key>, key: Key)
    requires DistinctKeys(keys) && InEntryOrder(events, keys)
    ensures InEntryOrder(events, Without(keys, key))
  {
    if keys != [] && keys[0] != key {
      assert Without(keys, key) == [keys[0]] + Without(keys[1..], key);
      WithoutKeepsOrder(events, keys[1..], key);
      WithoutShape(keys[1..], key);
      var rest := Without(keys[1..], key);
      hide EnteredAt, Without;
      forall j | 0 <= j < |rest| ensures EnteredAt(events, keys[0]) < EnteredAt(events, rest[j]) {
        assert rest[j] in rest;
        var i :| 0 <= i < |keys[1..]| && keys[1..][i] == rest[j];
        assert keys[i + 1] == rest[j];
      }
    }
  }

  /** The insertion order of the map is the order in which its keys entered. */
  lemma {:induction false} OrderIsEntryOrder(events: seq<Event>)
    ensures InEntryOrder(events, Run(State([], map[]), events).order)
  {
    if events != [] {
      var init, e := events[..|events| - 1], events[|events| - 1];
      var s := Run(State([], map[]), init);
      OrderIsEntryOrder(init);
      RunValid(State([], map[]), init);
      assert forall key | key in s.attempts :: EnteredAt(events, key) == EnteredAt(init, key);
      assert InEntryOrder(events, s.order) by {
        assert forall i | 0 <= i < |s.order| :: s.order[i] in s.order;
      }
      match e
      case Consume(key, now) =>
        if Opens(s, key, now) && key !in s.attempts {
          var grown := Opened(s, key, now);
          assert EnteredAt(events, key) == |init|;
          forall i | 0 <= i < |s.order| ensures EnteredAt(events, s.order[i]) < |init| {
            assert s.order[i] in s.order;
            EnteredBefore(init, s.order[i]);
          }
          assert InEntryOrder(events, grown.order);
          WithoutKeepsOrder(events, grown.order, grown.order[0]);
        }
      case Clear(key, _) => WithoutKeepsOrder(events, s.order, key);
      case _ =>
    }
  }

  /** An attempt removes another key only when the map is full, and then the
      oldest. */
  lemma EvictionShape(s: State, e: Event, key: Key)
    requires Valid(s) && e.Consume?
    requires key in s.attempts && key !in Step(s, e).attempts
    ensures e.key !in s.attempts && |s.order| == 10_000 && s.order[0] == key
    ensures Step(s, e).attempts.Keys == s.attempts.Keys - {key} + {e.key}
  {
    if e.key !in s.attempts {
      GrownShape(s, e.key, e.now);
    }
  }

  /** A key is evicted only when ten thousand other keys have entered the map
      since it did and are all still there. */
  lemma EvictedLate(events: seq<Event>, e: Event, key: Key) returns (others: seq<Key>)
    requires e.Consume?
    requires key in Run(State([], map[]), events).attempts && key !in Run(State([], map[]), events + [e]).attempts
    ensures |others| == 10_000 && DistinctKeys(others) && key !in others
    ensures forall other | other in others ::
      && other in Run(State([], map[]), events + [e]).attempts
      && EnteredAt(events + [e], other) > EnteredAt(events + [e], key)
  {
    var s := Run(State([], map[]), events);
    RunMore(State([], map[]), events, e);
    RunValid(State([], map[]), events);
    OrderIsEntryOrder(events);
    EvictionShape(s, e, key);
    EnteredBefore(events, key);
    others := s.order[1..] + [e.key];
    forall other
      ensures EnteredAt(events + [e], other) == if Enters(s, e, other) then |events| else EnteredAt(events, other) {
      EnteredMore(events, e, other);
    }
    hide Run, Step, EnteredAt;
    forall i | 0 <= i < |others|
      ensures others[i] in Step(s, e).attempts
      ensures EnteredAt(events + [e], others[i]) > EnteredAt(events + [e], key)
    {
      if i < |others| - 1 {
        assert others[i] == s.order[i + 1];
        assert s.order[i + 1] in s.order && s.order[0] in s.order;
      }
    }
  }

  lemma EnteredMore(events: seq<Event>, e: Event, key: Key)
    ensures EnteredAt(events + [e], key) ==
      if Enters(Run(State([], map[]), events), e, key) then |events| else EnteredAt(events, key)
  {
    assert (events + [e])[..|events|] == events;
    hide Run;
  }

  // ------------------------------------------------------------------
  // The rate
  // ------------------------------------------------------------------

  /** How many attempts of the key are accepted with a clock value in the closed
      interval of window length that starts at t. */
  ghost function AcceptedIn(s: State, events: seq<Event>, key: Key, t: Time): nat
    decreases |events|
  {
    if events == [] then 0
    else
      var e := events[0];
      (if e.Consume? && e.key == key && t <= e.now <= t + 900_000 && Accepts(s, key, e.now) then 1 else 0)
      + AcceptedIn(Step(s, e), events[1..], key, t)
  }

  ghost predicate ClockForward(events: seq<Event>) {
    forall i, j | 0 <= i < j < |events| :: events[i].now <= events[j].now
  }

  /** No event of the interval clears or evicts the key. */
  ghost predicate Kept(s: State, events: seq<Event>, key: Key, t: Time)
    decreases |events|
  {
    events != [] ==>
      && (t <= events[0].now <= t + 900_000 && key in s.attempts ==> key in Step(s, events[0]).attempts)
      && Kept(Step(s, events[0]), events[1..], key, t)
  }

  function Remaining(count: nat): nat {
    if count < MAX_ATTEMPTS then MAX_ATTEMPTS - count else 0
  }

  /** How many more attempts the interval can hold. */
  function Allowance(s: State, key: Key, t: Time): nat {
    if key !in s.attempts then MAX_ATTEMPTS
    else if s.attempts[key].first >= t then Remaining(s.attempts[key].count)
    else Remaining(s.attempts[key].count) + MAX_ATTEMPTS
  }

  lemma {:induction false} NoneAfter(s: State, events: seq<Event>, key: Key, t: Time)
    requires forall i | 0 <= i < |events| :: events[i].now > t + WINDOW
    ensures AcceptedIn(s, events, key, t) == 0
    decreases |events|
  {
    if events != [] {
      NoneAfter(Step(s, events[0]), events[1..], key, t);
    }
  }

  /** One event of the interval uses up its share of the allowance. */
  lemma AllowanceStep(s: State, e: Event, key: Key, t: Time)
    requires Valid(s) && t <= e.now <= t + WINDOW
    requires key in s.attempts ==> key in Step(s, e).attempts
    ensures Allowance(Step(s, e), key, t) + (if e.Consume? && e.key == key && Accepts(s, key, e.now) then 1 else 0)
      <= Allowance(s, key, t)
  {
    if e.Consume? && e.key == key && Opens(s, key, e.now) {
      var grown := Opened(s, key, e.now);
      if |grown.order| > MAX_IDENTITIES {
        assert grown.order[0] != key;
      }
    }
  }

  lemma {:induction false} WithinAllowance(s: State, events: seq<Event>, key: Key, t: Time)
    requires Valid(s) && ClockForward(events) && Kept(s, events, key, t)
    requires events != [] ==> t <= events[0].now
    ensures AcceptedIn(s, events, key, t) <= Allowance(s, key, t)
    decreases |events|
  {
    if events != [] {
      if events[0].now > t + WINDOW {
        NoneAfter(s, events, key, t);
      } else {
        AllowanceStep(s, events[0], key, t);
        StepValid(s, events[0]);
        WithinAllowance(Step(s, events[0]), events[1..], key, t);
      }
    }
  }

  /** With a clock that does not go back, a key that is neither cleared nor
      evicted has at most fifteen attempts accepted in any closed interval of
      window length: seven of a window already open and eight of the next. */
  lemma {:induction false} AtMostFifteen(s: State, events: seq<Event>, key: Key, t: Time)
    requires Valid(s) && ClockForward(events) && Kept(s, events, key, t)
    ensures AcceptedIn(s, events, key, t) <= 15
    decreases |events|
  {
    if events != [] && events[0].now < t {
      StepValid(s, events[0]);
      AtMostFifteen(Step(s, events[0]), events[1..], key, t);
    } else {
      WithinAllowance(s, events, key, t);
    }
  }

  /** Fifteen is reached. */
  lemma FifteenReached() returns (events: seq<Event>, t: Time)
    ensures ClockForward(events) && Kept(State([], map[]), events, 0, t)
    ensures AcceptedIn(State([], map[]), events, 0, t) == 15
  {
    t := 1;
    var s := State([], map[]);
    var start := [Consume(0, 0)];
    var late := Burst(7, WINDOW);
    var again := Burst(8, WINDOW + 1);
    events := start + late + again;
    BurstAccepted(Step(s, Consume(0, 0)), 7, WINDOW, again, 1);
    var s1 := State([0], map[0 := Attempt(8, 0)]);
    var s2 := State([0], map[0 := Attempt(1, WINDOW + 1)]);
    assert again == [Consume(0, WINDOW + 1)] + Burst(7, WINDOW + 1);
    assert Burst(7, WINDOW + 1) + [] == Burst(7, WINDOW + 1);
    BurstAccepted(s2, 7, WINDOW + 1, [], 1);
    assert Step(s1, Consume(0, WINDOW + 1)) == s2;
    assert events == [Consume(0, 0)] + (late + again);
    assert events[1..] == late + again;
    assert again[1..] == Burst(7, WINDOW + 1);
  }

  function Burst(n: nat, now: Time): (r: seq<Event>)
    ensures |r| == n && forall i | 0 <= i < n :: r[i] == Consume(0, now)
  {
    if n == 0 then [] else [Consume(0, now)] + Burst(n - 1, now)
  }

  /** Attempts at one instant in an open window are accepted up to the limit. */
  lemma {:induction false} BurstAccepted(s: State, n: nat, now: Time, rest: seq<Event>, t: Time)
    requires s.order == [0] && s.attempts.Keys == {0} && now - s.attempts[0].first <= WINDOW
    requires s.attempts[0].count + n <= MAX_ATTEMPTS && t <= now <= t + WINDOW
    ensures var after := State([0], map[0 := Attempt(s.attempts[0].count + n, s.attempts[0].first)]);
      && AcceptedIn(s, Burst(n, now) + rest, 0, t) == n + AcceptedIn(after, rest, 0, t)
      && (Kept(after, rest, 0, t) ==> Kept(s, Burst(n, now) + rest, 0, t))
    decreases n
  {
    if n == 0 {
      assert Burst(n, now) + rest == rest;
      assert s == State([0], map[0 := s.attempts[0]]);
    } else {
      var events := Burst(n, now) + rest;
      assert events == [Consume(0, now)] + (Burst(n - 1, now) + rest);
      assert events[1..] == Burst(n - 1, now) + rest;
      BurstAccepted(Step(s, events[0]), n - 1, now, rest, t);
    }
  }
}
