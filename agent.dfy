/** The smartcab learning agent: its value table (one entry per state and
    action, all filled with negative infinity when the agent is built), the
    greedy action selector with its fall-back to the route planner, and the
    per-trial reset.

    The environment's `valid_actions` is not part of this model; it is the
    sequence `validActions` handed to the constructor, over an action type
    `A`. The planner's answer and the environment's percept and deadline are
    parameters of the tick. */
module Agent {
  import opened QValues
  import opened Counting

  datatype Option<T> = None | Some(value: T)

  /** The colour of the traffic light at the agent's intersection. */
  datatype Light = Red | Green

  /** The two colours, in the order the table is filled. */
  const Lights: seq<Light> := [Red, Green]

  /** What the agent senses: the light and the heading of the oncoming, left
      and right traffic, each one of the valid actions. */
  datatype Percept<A> = Percept(light: Light, oncoming: A, left: A, right: A)

  /** The state half of a table key, as the Python tuple it is built as.
      `LearningState` is the shape the table is filled with,
      `((light, oncoming, left, right), waypoint)`; `TimedState` is the shape
      of the state the tick builds, which carries the deadline as a third
      component. A tuple of three never equals a tuple of two, so no
      `TimedState` is ever a key of the table. */
  datatype StateKey<A> =
    | LearningState(percept: Percept<A>, waypoint: A)
    | TimedState(percept: Percept<A>, waypoint: A, deadline: int)

  /** A table key: `(state, action)`. */
  type Key<A> = (StateKey<A>, A)

  /** The outcome of a selection: the chosen action, or the `KeyError` that
      the dictionary lookup raises, carrying the key that was missing. */
  datatype Selection<A> = Chosen(action: A) | KeyError(missing: Key<A>)

  /** Key `k` is a `LearningState` key whose components are drawn from the
      given sequences. */
  ghost predicate Covered<A>(k: Key<A>, lights: seq<Light>, oncoming: seq<A>, left: seq<A>,
                             right: seq<A>, waypoints: seq<A>, actions: seq<A>)
  {
    && k.0.LearningState?
    && k.0.percept.light in lights
    && k.0.percept.oncoming in oncoming
    && k.0.percept.left in left
    && k.0.percept.right in right
    && k.0.waypoint in waypoints
    && k.1 in actions
  }

  /** The key space the constructor enumerates: both lights, and oncoming,
      left, right, waypoint and action each drawn from the valid actions. */
  ghost predicate InKeySpace<A>(validActions: seq<A>, k: Key<A>) {
    Covered(k, Lights, validActions, validActions, validActions, validActions, validActions)
  }

  /** The table as the constructor leaves it: exactly the key space, every
      entry negative infinity. */
  ghost predicate IsInitialTable<A>(validActions: seq<A>, t: map<Key<A>, Value>) {
    && (forall k | k in t :: InKeySpace(validActions, k) && t[k] == NegInf)
    && (forall light, oncoming, left, right, waypoint, action
          {:trigger (LearningState(Percept(light, oncoming, left, right), waypoint), action) in t} |
          && light in Lights && oncoming in validActions && left in validActions
          && right in validActions && waypoint in validActions && action in validActions
          :: (LearningState(Percept(light, oncoming, left, right), waypoint), action) in t)
  }

  /** Every colour is one of `Lights`. */
  lemma LightInLights(light: Light)
    ensures light in Lights
  {
    if light == Red {
      assert Lights[0] == light;
    } else {
      assert Lights[1] == light;
    }
  }

  /** The components of a key, as nested pairs. */
  type Components<A> = (((((Light, A), A), A), A), A)

  /** The key built from its components. */
  ghost function ToKey<A>(x: Components<A>): Key<A> {
    (LearningState(Percept(x.0.0.0.0.0, x.0.0.0.0.1, x.0.0.0.1, x.0.0.1), x.0.1), x.1)
  }

  /** All component tuples of the key space. */
  ghost function Tuples<A>(validActions: seq<A>): set<Components<A>> {
    var e := Elements(validActions);
    Product(Product(Product(Product(Product(Elements(Lights), e), e), e), e), e)
  }

  lemma TuplesSize<A>(validActions: seq<A>)
    requires Distinct(validActions)
    ensures |Tuples(validActions)| == 2 * |validActions| * |validActions| * |validActions| * |validActions| * |validActions|
  {
    var e := Elements(validActions);
    DistinctElementsSize(Lights);
    DistinctElementsSize(validActions);
    var p1 := Product(Elements(Lights), e);
    var p2 := Product(p1, e);
    var p3 := Product(p2, e);
    var p4 := Product(p3, e);
    ProductSize(Elements(Lights), e);
    ProductSize(p1, e);
    ProductSize(p2, e);
    ProductSize(p3, e);
    ProductSize(p4, e);
  }

  /** A component tuple is in `Tuples` exactly when each component is drawn
      from its sequence. */
  lemma InTuples<A>(validActions: seq<A>, x: Components<A>)
    ensures x in Tuples(validActions) <==>
              && x.0.0.0.0.0 in Lights && x.0.0.0.0.1 in validActions && x.0.0.0.1 in validActions
              && x.0.0.1 in validActions && x.0.1 in validActions && x.1 in validActions
  {
    var e := Elements(validActions);
    var p1 := Product(Elements(Lights), e);
    var p2 := Product(p1, e);
    var p3 := Product(p2, e);
    var p4 := Product(p3, e);
    InProduct(Elements(Lights), e, x.0.0.0.0.0, x.0.0.0.0.1);
    InProduct(p1, e, x.0.0.0.0, x.0.0.0.1);
    InProduct(p2, e, x.0.0.0, x.0.0.1);
    InProduct(p3, e, x.0.0, x.0.1);
    InProduct(p4, e, x.0, x.1);
  }

  /** Every key of the key space is built from a component tuple. */
  lemma KeySpaceInImage<A>(validActions: seq<A>, k: Key<A>)
    requires InKeySpace(validActions, k)
    ensures k in Image(Tuples(validActions), ToKey)
  {
    var s := k.0;
    var x := (((((s.percept.light, s.percept.oncoming), s.percept.left), s.percept.right), s.waypoint), k.1);
    InTuples(validActions, x);
    assert ToKey(x) == k;
  }

  /** Every key built from a component tuple is in the initial table. */
  lemma ImageKeyInInitialTable<A>(validActions: seq<A>, t: map<Key<A>, Value>, k: Key<A>)
    requires IsInitialTable(validActions, t)
    requires k in Image(Tuples(validActions), ToKey)
    ensures k in t
  {
    var x :| x in Tuples(validActions) && k == ToKey(x);
    InTuples(validActions, x);
  }

  /** Every key of the initial table is built from a component tuple. */
  lemma InitialKeysInImage<A>(validActions: seq<A>, t: map<Key<A>, Value>)
    requires IsInitialTable(validActions, t)
    ensures forall k | k in t :: k in Image(Tuples(validActions), ToKey)
  {
    forall k | k in t ensures k in Image(Tuples(validActions), ToKey) {
      KeySpaceInImage(validActions, k);
    }
  }

  /** Every key built from a component tuple is in the initial table. */
  lemma ImageInInitialKeys<A>(validActions: seq<A>, t: map<Key<A>, Value>)
    requires IsInitialTable(validActions, t)
    ensures forall k | k in Image(Tuples(validActions), ToKey) :: k in t
  {
    forall k | k in Image(Tuples(validActions), ToKey) ensures k in t {
      ImageKeyInInitialTable(validActions, t, k);
    }
  }

  /** With distinct valid actions the initial table has 2 * n^5 entries, n
      the number of valid actions: two lights times n choices for each of
      oncoming, left, right, waypoint and action. */
  lemma InitialTableSize<A>(validActions: seq<A>, t: map<Key<A>, Value>)
    requires Distinct(validActions)
    requires IsInitialTable(validActions, t)
    ensures |t| == 2 * |validActions| * |validActions| * |validActions| * |validActions| * |validActions|
  {
    var image := Image(Tuples(validActions), ToKey);
    InitialKeysInImage(validActions, t);
    ImageInInitialKeys(validActions, t);
    assert t.Keys == image;
    ImageSize(Tuples(validActions), ToKey);
    TuplesSize(validActions);
  }

  /** Every entry of the table is negative infinity. */
  ghost predicate AllNegInf<A>(t: map<Key<A>, Value>) {
    forall k | k in t :: t[k] == NegInf
  }

  /** The first `n` valid actions, paired with `state`, are keys of the table. */
  ghost predicate PresentBefore<A>(validActions: seq<A>, state: StateKey<A>, qtable: map<Key<A>, Value>, n: int) {
    forall i | 0 <= i < n && i < |validActions| :: (state, validActions[i]) in qtable
  }

  /** Every key of `state` paired with a valid action is in the table. */
  ghost predicate AllPresent<A>(validActions: seq<A>, state: StateKey<A>, qtable: map<Key<A>, Value>) {
    PresentBefore(validActions, state, qtable, |validActions|)
  }

  /** `missing` is the first key, in scan order, that the table lacks. */
  ghost predicate FirstMissing<A>(validActions: seq<A>, state: StateKey<A>, qtable: map<Key<A>, Value>,
                                  missing: Key<A>)
  {
    exists i :: 0 <= i < |validActions| && missing == (state, validActions[i]) && missing !in qtable
      && PresentBefore(validActions, state, qtable, i)
  }

  /** No valid action has a non-negative value for `state`. */
  ghost predicate AllNegative<A>(validActions: seq<A>, state: StateKey<A>, qtable: map<Key<A>, Value>)
    requires AllPresent(validActions, state, qtable)
  {
    forall i | 0 <= i < |validActions| :: IsNegative(qtable[(state, validActions[i])])
  }

  /** Among the first `n` positions, position `i` holds a maximal value for
      `state`, and every earlier position holds a strictly smaller one. */
  ghost predicate IsFirstMax<A>(validActions: seq<A>, state: StateKey<A>, qtable: map<Key<A>, Value>,
                                n: nat, i: int)
    requires n <= |validActions| && PresentBefore(validActions, state, qtable, n)
  {
    && 0 <= i < n
    && (forall j | 0 <= j < n ::
          !Greater(qtable[(state, validActions[j])], qtable[(state, validActions[i])]))
    && (forall j | 0 <= j < i ::
          Greater(qtable[(state, validActions[i])], qtable[(state, validActions[j])]))
  }

  /** What scanning a prefix of the valid actions has found: the key whose
      lookup raised `KeyError`, or the best value so far and its action. */
  datatype Scanned<A> = Missing(key: Key<A>) | Best(maxReward: Value, bestAction: Option<A>)

  /** The scan over the first `n` valid actions: an action replaces the best
      so far only when its value is strictly greater, and the first lookup
      that misses ends the scan. The best action is unset exactly while the
      best value is still negative infinity, and is always a valid action. */
  function Scan<A(==)>(validActions: seq<A>, state: StateKey<A>, qtable: map<Key<A>, Value>, n: nat)
    : (s: Scanned<A>)
    requires n <= |validActions|
    ensures s.Best? ==> (s.bestAction.None? <==> s.maxReward == NegInf)
    ensures s.Best? && s.bestAction.Some? ==> s.bestAction.value in validActions
    decreases n
  {
    if n == 0 then Best(NegInf, None)
    else
      match Scan(validActions, state, qtable, n - 1)
      case Missing(k) => Missing(k)
      case Best(maxReward, bestAction) =>
        var key := (state, validActions[n - 1]);
        if key !in qtable then Missing(key)
        else if Greater(qtable[key], maxReward) then Best(qtable[key], Some(validActions[n - 1]))
        else Best(maxReward, bestAction)
  }

  /** The selector's result: `KeyError` for a missing key; otherwise the
      waypoint when the best value is negative, else the best action. It
      never returns an action that is neither the waypoint nor valid. */
  function Select<A(==)>(validActions: seq<A>, state: StateKey<A>, qtable: map<Key<A>, Value>, waypoint: A)
    : (r: Selection<A>)
    ensures r.Chosen? ==> r.action == waypoint || r.action in validActions
  {
    match Scan(validActions, state, qtable, |validActions|)
    case Missing(k) => KeyError(k)
    case Best(maxReward, bestAction) =>
      if IsNegative(maxReward) then Chosen(waypoint) else Chosen(bestAction.value)
  }

  /** Once a lookup has missed, scanning further changes nothing. */
  lemma {:induction false} MissingPersists<A>(validActions: seq<A>, state: StateKey<A>,
                                              qtable: map<Key<A>, Value>, n: nat, m: nat)
    requires n <= m <= |validActions|
    requires Scan(validActions, state, qtable, n).Missing?
    ensures Scan(validActions, state, qtable, m) == Scan(validActions, state, qtable, n)
    decreases m - n
  {
    if n < m {
      MissingPersists(validActions, state, qtable, n, m - 1);
    }
  }

  /** The scan of the first `n` actions misses exactly when a key among them
      is absent, and then reports the first absent one. */
  lemma {:induction false} ScanMissing<A>(validActions: seq<A>, state: StateKey<A>,
                                          qtable: map<Key<A>, Value>, n: nat)
    requires n <= |validActions|
    ensures Scan(validActions, state, qtable, n).Missing? <==> !PresentBefore(validActions, state, qtable, n)
    ensures Scan(validActions, state, qtable, n).Missing? ==>
              FirstMissing(validActions, state, qtable, Scan(validActions, state, qtable, n).key)
    decreases n
  {
    if n > 0 {
      ScanMissing(validActions, state, qtable, n - 1);
      var key := (state, validActions[n - 1]);
      match Scan(validActions, state, qtable, n - 1)
      case Missing(k) =>
        assert !PresentBefore(validActions, state, qtable, n);
      case Best(_, _) =>
        if key !in qtable {
          assert FirstMissing(validActions, state, qtable, key);
        } else {
          assert PresentBefore(validActions, state, qtable, n);
        }
    }
  }

  /** When the first `n` keys are present the scan ends with a best value:
      with no best action every value seen is negative infinity; otherwise
      the best action sits at the first position of a maximal value, and the
      best value is that value. */
  lemma {:induction false} ScanBest<A>(validActions: seq<A>, state: StateKey<A>,
                                       qtable: map<Key<A>, Value>, n: nat)
    requires n <= |validActions| && PresentBefore(validActions, state, qtable, n)
    ensures Scan(validActions, state, qtable, n).Best?
    ensures Scan(validActions, state, qtable, n).bestAction.None? ==>
              forall i | 0 <= i < n :: qtable[(state, validActions[i])] == NegInf
    ensures Scan(validActions, state, qtable, n).bestAction.Some? ==>
              exists i :: IsFirstMax(validActions, state, qtable, n, i)
                       && Scan(validActions, state, qtable, n)
                          == Best(qtable[(state, validActions[i])], Some(validActions[i]))
    decreases n
  {
    ScanMissing(validActions, state, qtable, n);
    if n > 0 {
      ScanBest(validActions, state, qtable, n - 1);
      var key := (state, validActions[n - 1]);
      var Best(maxReward, bestAction) := Scan(validActions, state, qtable, n - 1);
      if Greater(qtable[key], maxReward) {
        if bestAction.Some? {
          var b :| IsFirstMax(validActions, state, qtable, n - 1, b)
                   && maxReward == qtable[(state, validActions[b])];
        }
        assert IsFirstMax(validActions, state, qtable, n, n - 1);
      } else if bestAction.Some? {
        var b :| IsFirstMax(validActions, state, qtable, n - 1, b)
                 && Scan(validActions, state, qtable, n - 1)
                    == Best(qtable[(state, validActions[b])], Some(validActions[b]));
        assert IsFirstMax(validActions, state, qtable, n, b);
      }
    }
  }

  /** The selector raises `KeyError` exactly when some `(state, action)` key
      is missing, and then carries the first missing key in scan order. */
  lemma SelectKeyError<A>(validActions: seq<A>, state: StateKey<A>, qtable: map<Key<A>, Value>, waypoint: A)
    ensures Select(validActions, state, qtable, waypoint).KeyError?
            <==> !AllPresent(validActions, state, qtable)
    ensures Select(validActions, state, qtable, waypoint).KeyError? ==>
              FirstMissing(validActions, state, qtable, Select(validActions, state, qtable, waypoint).missing)
  {
    ScanMissing(validActions, state, qtable, |validActions|);
  }

  /** When every value is negative (all negative infinity, or no actions at
      all) the selector returns the waypoint. */
  lemma SelectFallback<A>(validActions: seq<A>, state: StateKey<A>, qtable: map<Key<A>, Value>, waypoint: A)
    requires AllPresent(validActions, state, qtable) && AllNegative(validActions, state, qtable)
    ensures Select(validActions, state, qtable, waypoint) == Chosen(waypoint)
  {
    ScanBest(validActions, state, qtable, |validActions|);
  }

  /** A first maximal position always exists when there are valid actions
      and all their keys are present. */
  lemma FirstMaxExists<A>(validActions: seq<A>, state: StateKey<A>, qtable: map<Key<A>, Value>)
    requires |validActions| > 0 && AllPresent(validActions, state, qtable)
    ensures exists i :: IsFirstMax(validActions, state, qtable, |validActions|, i)
  {
    ScanBest(validActions, state, qtable, |validActions|);
    if Scan(validActions, state, qtable, |validActions|).bestAction.None? {
      assert IsFirstMax(validActions, state, qtable, |validActions|, 0);
    }
  }

  /** When some value is non-negative, the first maximal position holds a
      non-negative value and the selector returns the action there. */
  lemma SelectFirstMax<A>(validActions: seq<A>, state: StateKey<A>, qtable: map<Key<A>, Value>, waypoint: A)
    requires AllPresent(validActions, state, qtable) && !AllNegative(validActions, state, qtable)
    ensures forall i | IsFirstMax(validActions, state, qtable, |validActions|, i) ::
              && !IsNegative(qtable[(state, validActions[i])])
              && Select(validActions, state, qtable, waypoint) == Chosen(validActions[i])
  {
    var n := |validActions|;
    ScanBest(validActions, state, qtable, n);
    var k :| 0 <= k < n && !IsNegative(qtable[(state, validActions[k])]);
    var b :| IsFirstMax(validActions, state, qtable, n, b)
             && Scan(validActions, state, qtable, n)
                == Best(qtable[(state, validActions[b])], Some(validActions[b]));
    forall i | IsFirstMax(validActions, state, qtable, n, i)
      ensures && !IsNegative(qtable[(state, validActions[i])])
              && Select(validActions, state, qtable, waypoint) == Chosen(validActions[i])
    {
      assert i == b;
    }
  }

  /** The selector nested in the tick: scan the valid actions in order,
      keeping an action only when its value is strictly greater than the best
      so far (so the first of equal values wins); if the best value is
      negative, and in particular when every value is negative infinity,
      defer to the planner's waypoint. A missing key raises `KeyError` at the
      first lookup that misses. */
  method Argmax<A(==)>(validActions: seq<A>, state: StateKey<A>, qtable: map<Key<A>, Value>, waypoint: A)
    returns (r: Selection<A>)
    ensures r == Select(validActions, state, qtable, waypoint)
  {
    var maxReward := NegInf;
    var bestAction: Option<A> := None;
    for i := 0 to |validActions|
      invariant Scan(validActions, state, qtable, i) == Best(maxReward, bestAction)
    {
      var key := (state, validActions[i]);
      if key !in qtable {
        MissingPersists(validActions, state, qtable, i + 1, |validActions|);
        return KeyError(key);
      }
      if Greater(qtable[key], maxReward) {
        bestAction, maxReward := Some(validActions[i]), qtable[key];
      }
    }
    if IsNegative(maxReward) {
      r := Chosen(waypoint);
    } else {
      r := Chosen(bestAction.value);
    }
  }

  /** The percept and waypoint are drawn from the valid actions, so the
      state they make is one the constructor enumerated. */
  predicate InDomain<A(==)>(validActions: seq<A>, inputs: Percept<A>, waypoint: A) {
    && inputs.oncoming in validActions
    && inputs.left in validActions
    && inputs.right in validActions
    && waypoint in validActions
  }

  /** On a freshly built table every in-domain state has all its keys and
      only negative values, so the selector follows the planner. */
  lemma InitialTableDefersToPlanner<A>(validActions: seq<A>, t: map<Key<A>, Value>,
                                       inputs: Percept<A>, waypoint: A)
    requires IsInitialTable(validActions, t)
    requires InDomain(validActions, inputs, waypoint)
    ensures AllPresent(validActions, LearningState(inputs, waypoint), t)
    ensures AllNegative(validActions, LearningState(inputs, waypoint), t)
  {
    var s := LearningState(inputs, waypoint);
    LightInLights(inputs.light);
    forall i | 0 <= i < |validActions| ensures (s, validActions[i]) in t {
      assert validActions[i] in validActions;
    }
  }

  /** A state whose percept or waypoint lies outside the valid actions has
      no key in the initial table. */
  lemma OutOfDomainMissing<A>(validActions: seq<A>, t: map<Key<A>, Value>,
                              inputs: Percept<A>, waypoint: A)
    requires IsInitialTable(validActions, t)
    requires !InDomain(validActions, inputs, waypoint)
    ensures forall a :: (LearningState(inputs, waypoint), a) !in t
  {
    forall a ensures (LearningState(inputs, waypoint), a) !in t {
      assert !InKeySpace(validActions, (LearningState(inputs, waypoint), a));
    }
  }

  class LearningAgent<A(==)> {
    /** The environment's `valid_actions`, in scan order. */
    const validActions: seq<A>
    /** The value table, keyed by `(state, action)`. */
    var qtable: map<Key<A>, Value>
    /** The reward accumulated in the current trial. */
    var totalReward: real
    /** The planner's last answer; `None` before the first tick. */
    var nextWaypoint: Option<A>
    /** The state built at the last tick; `None` before the first tick. */
    var state: Option<StateKey<A>>

    /** Nothing in the agent writes the table after construction, so it
        stays the initial table for the agent's whole life. */
    ghost predicate Valid()
      reads this
    {
      IsInitialTable(validActions, qtable)
    }

    /** Fills the table through six nested loops (agent.py's `__init__`):
        for each light, oncoming, left, right and waypoint, and each action,
        the key `(((light, oncoming, left, right), waypoint), action)` is set
        to negative infinity. The outermost loop, over the lights, is here;
        each inner loop is one of the `Fill` methods below. */
    constructor (validActions: seq<A>)
      ensures this.validActions == validActions
      ensures IsInitialTable(validActions, qtable)
      ensures totalReward == 0.0
      ensures nextWaypoint == None && state == None
    {
      this.validActions := validActions;
      qtable := map[];
      totalReward := 0.0;
      nextWaypoint, state := None, None;
      new;
      var va := validActions;
      for i := 0 to |Lights|
        modifies this`qtable
        invariant forall k :: k in qtable <==> Covered(k, Lights[..i], va, va, va, va, va)
        invariant AllNegInf(qtable)
      {
        FillOncomings(Lights[i]);
        assert Lights[..i + 1] == Lights[..i] + [Lights[i]];
      }
      assert Lights[..|Lights|] == Lights;
      forall light, oncoming, left, right, waypoint, action |
        && light in Lights && oncoming in va && left in va
        && right in va && waypoint in va && action in va
        ensures (LearningState(Percept(light, oncoming, left, right), waypoint), action) in qtable
      {
        assert Covered((LearningState(Percept(light, oncoming, left, right), waypoint), action), Lights, va, va, va, va, va);
      }
    }

    /** The loop over oncoming traffic, for one light. */
    method FillOncomings(light: Light)
      requires AllNegInf(qtable)
      modifies this`qtable
      ensures AllNegInf(qtable)
      ensures forall k :: k in qtable <==> k in old(qtable) || Covered(k, [light], validActions, validActions, validActions, validActions, validActions)
    {
      var va := validActions;
      for i := 0 to |va|
        invariant AllNegInf(qtable)
        invariant forall k :: k in qtable <==> k in old(qtable) || Covered(k, [light], va[..i], va, va, va, va)
      {
        FillLefts(light, va[i]);
        assert va[..i + 1] == va[..i] + [va[i]];
      }
      assert va[..|va|] == va;
    }

    /** The loop over traffic from the left, for one light and oncoming. */
    method FillLefts(light: Light, oncoming: A)
      requires AllNegInf(qtable)
      modifies this`qtable
      ensures AllNegInf(qtable)
      ensures forall k :: k in qtable <==> k in old(qtable) || Covered(k, [light], [oncoming], validActions, validActions, validActions, validActions)
    {
      var va := validActions;
      for i := 0 to |va|
        invariant AllNegInf(qtable)
        invariant forall k :: k in qtable <==> k in old(qtable) || Covered(k, [light], [oncoming], va[..i], va, va, va)
      {
        FillRights(light, oncoming, va[i]);
        assert va[..i + 1] == va[..i] + [va[i]];
      }
      assert va[..|va|] == va;
    }

    /** The loop over traffic from the right. */
    method FillRights(light: Light, oncoming: A, left: A)
      requires AllNegInf(qtable)
      modifies this`qtable
      ensures AllNegInf(qtable)
      ensures forall k :: k in qtable <==> k in old(qtable) || Covered(k, [light], [oncoming], [left], validActions, validActions, validActions)
    {
      var va := validActions;
      for i := 0 to |va|
        invariant AllNegInf(qtable)
        invariant forall k :: k in qtable <==> k in old(qtable) || Covered(k, [light], [oncoming], [left], va[..i], va, va)
      {
        FillWaypoints(light, oncoming, left, va[i]);
        assert va[..i + 1] == va[..i] + [va[i]];
      }
      assert va[..|va|] == va;
    }

    /** The loop over waypoints, which builds the state
        `((light, oncoming, left, right), waypoint)`. */
    method FillWaypoints(light: Light, oncoming: A, left: A, right: A)
      requires AllNegInf(qtable)
      modifies this`qtable
      ensures AllNegInf(qtable)
      ensures forall k :: k in qtable <==> k in old(qtable) || Covered(k, [light], [oncoming], [left], [right], validActions, validActions)
    {
      var va := validActions;
      for i := 0 to |va|
        invariant AllNegInf(qtable)
        invariant forall k :: k in qtable <==> k in old(qtable) || Covered(k, [light], [oncoming], [left], [right], va[..i], va)
      {
        FillActions(LearningState(Percept(light, oncoming, left, right), va[i]));
        assert va[..i + 1] == va[..i] + [va[i]];
      }
      assert va[..|va|] == va;
    }

    /** The innermost loop: every action of one state is set to negative
        infinity. */
    method FillActions(s: StateKey<A>)
      requires s.LearningState?
      requires AllNegInf(qtable)
      modifies this`qtable
      ensures AllNegInf(qtable)
      ensures forall k :: k in qtable <==>
                (k in old(qtable) || Covered(k, [s.percept.light], [s.percept.oncoming], [s.percept.left],
                                             [s.percept.right], [s.waypoint], validActions))
    {
      var va := validActions;
      for i := 0 to |va|
        invariant AllNegInf(qtable)
        invariant forall k :: k in qtable <==> k in old(qtable) || (k.0 == s && k.1 in va[..i])
      {
        qtable := qtable[(s, va[i]) := NegInf];
        assert va[..i + 1] == va[..i] + [va[i]];
      }
      assert va[..|va|] == va;
    }

    /** Prepares a new trial: the accumulated reward goes back to zero and
        nothing else changes. The post-state does not depend on the old
        reward, so resetting twice leaves the agent as resetting once. */
    method Reset()
      modifies this`totalReward
      ensures totalReward == 0.0
      ensures qtable == old(qtable)
      ensures Valid() == old(Valid())
    {
      totalReward := 0.0;
    }

    /** The tick as written: the state carries the deadline, so it is never
        a key of the table, and the first lookup raises `KeyError`; only with
        no valid actions does the scan finish, and it then defers to the
        planner. */
    method UpdateAsWritten(waypoint: A, inputs: Percept<A>, deadline: int) returns (r: Selection<A>)
      requires Valid()
      modifies this`nextWaypoint, this`state
      ensures Valid() && qtable == old(qtable)
      ensures nextWaypoint == Some(waypoint)
      ensures state == Some(TimedState(inputs, waypoint, deadline))
      ensures r.KeyError? <==> |validActions| > 0
      ensures r.KeyError? ==> r.missing == (TimedState(inputs, waypoint, deadline), validActions[0])
      ensures r.Chosen? ==> r.action == waypoint
    {
      nextWaypoint := Some(waypoint);
      var s := TimedState(inputs, waypoint, deadline);
      state := Some(s);
      if |validActions| > 0 {
        assert !InKeySpace(validActions, (s, validActions[0]));
      }
      r := Argmax(validActions, s, qtable, waypoint);
      SelectKeyError(validActions, s, qtable, waypoint);
      if AllPresent(validActions, s, qtable) && AllNegative(validActions, s, qtable) {
        SelectFallback(validActions, s, qtable, waypoint);
      }
    }

    /** The tick with the state shaped like the table's keys,
        `(inputs, waypoint)`. The chosen action is what the tick hands to the
        environment. Since the table is never written, every in-domain state
        still holds only negative infinity and the agent always follows the
        planner; an out-of-domain percept or waypoint raises `KeyError`. */
    method Update(waypoint: A, inputs: Percept<A>, deadline: int) returns (r: Selection<A>)
      requires Valid()
      modifies this`nextWaypoint, this`state
      ensures Valid() && qtable == old(qtable)
      ensures nextWaypoint == Some(waypoint)
      ensures state == Some(LearningState(inputs, waypoint))
      ensures r.KeyError? <==> |validActions| > 0 && !InDomain(validActions, inputs, waypoint)
      ensures r.KeyError? ==> r.missing == (LearningState(inputs, waypoint), validActions[0])
      ensures r.Chosen? ==> r.action == waypoint
    {
      nextWaypoint := Some(waypoint);
      var s := LearningState(inputs, waypoint);
      state := Some(s);
      if InDomain(validActions, inputs, waypoint) {
        InitialTableDefersToPlanner(validActions, qtable, inputs, waypoint);
      } else {
        OutOfDomainMissing(validActions, qtable, inputs, waypoint);
        if |validActions| > 0 {
          assert (s, validActions[0]) !in qtable;
        }
      }
      r := Argmax(validActions, s, qtable, waypoint);
      SelectKeyError(validActions, s, qtable, waypoint);
      if AllPresent(validActions, s, qtable) && AllNegative(validActions, s, qtable) {
        SelectFallback(validActions, s, qtable, waypoint);
      }
    }
  }
}
