/**
 * The current-activity cell (`currentActivity` / `updateCurrentActivity`)
 * and the poll that feeds it (`sdkPollForCurrentActivity`). Publishing to the
 * bus is recorded as an appended log entry.
 */
module Reconciler {

  import opened Wrappers
  import opened Uri
  import opened ActivityName
  import opened NeeoBrain
  import opened Commands

  /** The stored activity and every value published so far, oldest first. */
  datatype ActivityState = ActivityState(current: Option<string>, published: seq<string>)

  /** At start-up nothing is stored and nothing has been published. */
  const Initial := ActivityState(None, [])

  /**
   * What every reachable state satisfies: the stored value is the last value
   * published (nothing stored before the first publish), and every published
   * value is canonical.
   */
  predicate Coherent(s: ActivityState) {
    && (s.published == [] ==> s.current == None)
    && (s.published != [] ==> s.current == Some(s.published[|s.published| - 1]))
    && forall k :: 0 <= k < |s.published| ==> IsCanonical(s.published[k])
  }

  /**
   * The change gate: the RAW incoming value is compared with the stored
   * CANONICAL value; only when they differ is the canonical form stored and
   * published.
   */
  function Update(s: ActivityState, incoming: string): (t: ActivityState)
    ensures |s.published| <= |t.published| <= |s.published| + 1
    ensures t.published[..|s.published|] == s.published
  {
    if s.current == Some(incoming) then s
    else
      var name := Canonical(incoming);
      ActivityState(Some(name), s.published + [name])
  }

  /** A series of updates, applied in order. */
  function UpdateAll(s: ActivityState, incoming: seq<string>): (t: ActivityState)
    ensures |s.published| <= |t.published| <= |s.published| + |incoming|
    ensures t.published[..|s.published|] == s.published
    decreases |incoming|
  {
    if incoming == [] then s
    else
      var next := Update(s, incoming[0]);
      var t := UpdateAll(next, incoming[1..]);
      assert t.published[..|s.published|] == t.published[..|next.published|][..|s.published|];
      t
  }

  function Repeat(x: string, n: nat): seq<string> {
    seq(n, _ => x)
  }

  /** The gate keeps a state coherent, and after it the stored value is the canonical incoming name. */
  lemma UpdateKeepsCoherent(s: ActivityState, incoming: string)
    requires Coherent(s)
    ensures Coherent(Update(s, incoming))
    ensures Update(s, incoming).current == Some(Canonical(incoming))
    ensures Update(s, incoming) == s <==> s.current == Some(incoming)
  {
    CanonicalIdempotent(incoming);
    if s.current == Some(incoming) {
      assert s.published[|s.published| - 1] == incoming;
    }
  }

  /** Applying updates one after the other is applying their concatenation. */
  lemma {:induction false} UpdateAllAppend(s: ActivityState, xs: seq<string>, ys: seq<string>)
    ensures UpdateAll(s, xs + ys) == UpdateAll(UpdateAll(s, xs), ys)
    decreases |xs|
  {
    if xs == [] {
      assert xs + ys == ys;
    } else {
      assert (xs + ys)[0] == xs[0] && (xs + ys)[1..] == xs[1..] + ys;
      UpdateAllAppend(Update(s, xs[0]), xs[1..], ys);
    }
  }

  lemma UpdateAllSnoc(s: ActivityState, xs: seq<string>, x: string)
    ensures UpdateAll(s, xs + [x]) == Update(UpdateAll(s, xs), x)
  {
    UpdateAllAppend(s, xs, [x]);
    assert [x][1..] == [];
  }

  /**
   * Last write wins: after a non-empty series of updates the stored value is
   * the canonical form of the last incoming value, and the publish log has
   * only grown, by at most one canonical entry per update.
   */
  lemma LastWriteWins(s: ActivityState, xs: seq<string>)
    requires Coherent(s)
    ensures Coherent(UpdateAll(s, xs))
    ensures xs != [] ==> UpdateAll(s, xs).current == Some(Canonical(xs[|xs| - 1]))
    ensures var t := UpdateAll(s, xs);
      |s.published| <= |t.published| <= |s.published| + |xs| && t.published[..|s.published|] == s.published
  {
    UpdateAllKeepsCoherent(s, xs);
    if xs != [] {
      UpdateAllStoresLast(s, xs);
    }
  }

  /** A series of updates keeps a state coherent. */
  lemma {:induction false} UpdateAllKeepsCoherent(s: ActivityState, xs: seq<string>)
    requires Coherent(s)
    ensures Coherent(UpdateAll(s, xs))
    decreases |xs|
  {
    if xs != [] {
      UpdateKeepsCoherent(s, xs[0]);
      UpdateAllKeepsCoherent(Update(s, xs[0]), xs[1..]);
    }
  }

  /** After a non-empty series of updates, the canonical form of the last one is stored. */
  lemma {:induction false} UpdateAllStoresLast(s: ActivityState, xs: seq<string>)
    requires Coherent(s) && xs != []
    ensures UpdateAll(s, xs).current == Some(Canonical(xs[|xs| - 1]))
    decreases |xs|
  {
    UpdateKeepsCoherent(s, xs[0]);
    if |xs| > 1 {
      UpdateAllStoresLast(Update(s, xs[0]), xs[1..]);
      assert xs[1..][|xs[1..]| - 1] == xs[|xs| - 1];
    }
  }

  /**
   * Repeating a canonical value publishes at most once; repeating a
   * non-canonical value (such as `PlayStation`) publishes its canonical form
   * on every single update, because the raw value never equals the stored one.
   */
  lemma RepeatedUpdates(s: ActivityState, x: string, n: nat)
    requires Coherent(s) && n >= 1
    ensures IsCanonical(x) ==> UpdateAll(s, Repeat(x, n)) == Update(s, x)
    ensures !IsCanonical(x) ==>
      UpdateAll(s, Repeat(x, n)).published == s.published + Repeat(Canonical(x), n)
  {
    if IsCanonical(x) {
      RepeatedCanonical(s, x, n);
    } else {
      RepeatedNonCanonical(s, x, n);
    }
  }

  /** A repetition of `n >= 1` copies starts with one copy. */
  lemma RepeatCons(x: string, n: nat)
    requires n >= 1
    ensures Repeat(x, n) == [x] + Repeat(x, n - 1)
  {
  }

  /** After the first update of a canonical value, the repeats find it stored. */
  lemma {:induction false} RepeatedCanonical(s: ActivityState, x: string, n: nat)
    requires Coherent(s) && n >= 1 && IsCanonical(x)
    ensures UpdateAll(s, Repeat(x, n)) == Update(s, x)
    decreases n
  {
    RepeatCons(x, n);
    UpdateKeepsCoherent(s, x);
    var s' := Update(s, x);
    assert UpdateAll(s, Repeat(x, n)) == UpdateAll(s', Repeat(x, n - 1));
    if n > 1 {
      RepeatedCanonical(s', x, n - 1);
      UpdateKeepsCoherent(s', x);
    }
  }

  /** Each update of a non-canonical value publishes its canonical form again. */
  lemma {:induction false} RepeatedNonCanonical(s: ActivityState, x: string, n: nat)
    requires Coherent(s) && n >= 1 && !IsCanonical(x)
    ensures UpdateAll(s, Repeat(x, n)).published == s.published + Repeat(Canonical(x), n)
    decreases n
  {
    RepeatCons(x, n);
    RepeatCons(Canonical(x), n);
    UpdateKeepsCoherent(s, x);
    var s' := Update(s, x);
    assert s'.published == s.published + [Canonical(x)];
    assert UpdateAll(s, Repeat(x, n)) == UpdateAll(s', Repeat(x, n - 1));
    if n > 1 {
      RepeatedNonCanonical(s', x, n - 1);
    } else {
      assert Repeat(Canonical(x), n - 1) == [];
    }
  }

  /** The gate deduplicates exactly the canonical names: a second identical update is silent iff the name is canonical. */
  lemma SecondUpdateSilentIffCanonical(s: ActivityState, x: string)
    requires Coherent(s)
    ensures Update(Update(s, x), x) == Update(s, x) <==> IsCanonical(x)
  {
    UpdateKeepsCoherent(s, x);
    UpdateKeepsCoherent(Update(s, x), x);
  }

  /**
   * The incoming names of a poll, from the recipes whose power key is
   * powered, in enumeration order; a URIError from `decodeURIComponent` ends
   * the enumeration.
   */
  function PoweredNames(keys: seq<string>, recipes: seq<Recipe>): (names: seq<string>)
    ensures |names| <= |recipes|
    decreases |recipes|
  {
    if recipes == [] then []
    else if recipes[0].powerKey !in keys then PoweredNames(keys, recipes[1..])
    else
      match DecodeUriComponent(recipes[0].deviceName)
      case None => []
      case Some(name) => [name] + PoweredNames(keys, recipes[1..])
  }

  /** Some powered recipe's name does not decode. */
  predicate Aborts(keys: seq<string>, recipes: seq<Recipe>) {
    exists k :: 0 <= k < |recipes| && recipes[k].powerKey in keys && DecodeUriComponent(recipes[k].deviceName).None?
  }

  /**
   * Reference definition of one poll: the values fed to the gate. Nothing
   * without a brain or when the power-state query is rejected; `off` when no
   * key is powered; otherwise the decoded names of the powered recipes.
   */
  function PollUpdates(brain: Option<Brain>): (incoming: seq<string>)
    ensures incoming != [] ==> brain.Some? && brain.value.poweredKeys.Answered?
    ensures incoming == [Off] || |incoming| <= |Enumerated(brain)|
  {
    match brain
    case None => []
    case Some(b) =>
      match b.poweredKeys
      case Rejected => []
      case Answered(keys) =>
        if keys == None || |keys.value| == 0 then [Off] else PoweredNames(keys.value, Enumerated(brain))
  }

  lemma {:induction false} PoweredNamesAppend(keys: seq<string>, xs: seq<Recipe>, ys: seq<Recipe>)
    ensures PoweredNames(keys, xs + ys) ==
      if Aborts(keys, xs) then PoweredNames(keys, xs) else PoweredNames(keys, xs) + PoweredNames(keys, ys)
    decreases |xs|
  {
    if xs == [] {
      assert xs + ys == ys;
    } else {
      assert (xs + ys)[0] == xs[0] && (xs + ys)[1..] == xs[1..] + ys;
      PoweredNamesAppend(keys, xs[1..], ys);
      AbortsCons(keys, xs);
    }
  }

  /** The enumeration aborts at the first recipe, or later on. */
  lemma AbortsCons(keys: seq<string>, xs: seq<Recipe>)
    requires xs != []
    ensures Aborts(keys, xs) <==>
      (xs[0].powerKey in keys && DecodeUriComponent(xs[0].deviceName).None?) || Aborts(keys, xs[1..])
  {
    if Aborts(keys, xs[1..]) {
      var k :| 0 <= k < |xs[1..]| && xs[1..][k].powerKey in keys && DecodeUriComponent(xs[1..][k].deviceName).None?;
      assert xs[k + 1] == xs[1..][k];
    }
    if Aborts(keys, xs) && !(xs[0].powerKey in keys && DecodeUriComponent(xs[0].deviceName).None?) {
      var k :| 0 <= k < |xs| && xs[k].powerKey in keys && DecodeUriComponent(xs[k].deviceName).None?;
      assert xs[1..][k - 1] == xs[k];
    }
  }

  /**
   * When no name fails to decode and recipe `j` is the last powered one, the
   * last value a poll feeds to the gate is recipe `j`'s decoded name.
   */
  lemma {:induction false} PoweredNamesEndWith(keys: seq<string>, recipes: seq<Recipe>, j: nat)
    requires !Aborts(keys, recipes)
    requires j < |recipes| && recipes[j].powerKey in keys
    requires forall k :: j < k < |recipes| ==> recipes[k].powerKey !in keys
    ensures var names := PoweredNames(keys, recipes);
      names != [] && names[|names| - 1] == DecodeUriComponent(recipes[j].deviceName).value
    decreases |recipes|
  {
    assert recipes[j] in recipes;
    var rest := recipes[1..];
    assert !Aborts(keys, rest);
    if j == 0 {
      assert PoweredNames(keys, rest) == [] by {
        NoPoweredRecipes(keys, rest);
      }
    } else {
      assert recipes[0].powerKey in keys ==> DecodeUriComponent(recipes[0].deviceName).Some?;
      PoweredNamesEndWith(keys, rest, j - 1);
    }
  }

  /** One recipe of the poll's enumeration: what it adds to the names fed to the gate. */
  lemma PoweredNamesStep(keys: seq<string>, recipes: seq<Recipe>, i: nat)
    requires i < |recipes| && !Aborts(keys, recipes[..i])
    ensures recipes[i].powerKey !in keys ==>
      PoweredNames(keys, recipes[..i + 1]) == PoweredNames(keys, recipes[..i]) && !Aborts(keys, recipes[..i + 1])
    ensures recipes[i].powerKey in keys && DecodeUriComponent(recipes[i].deviceName).Some? ==>
      && PoweredNames(keys, recipes[..i + 1])
         == PoweredNames(keys, recipes[..i]) + [DecodeUriComponent(recipes[i].deviceName).value]
      && !Aborts(keys, recipes[..i + 1])
    ensures recipes[i].powerKey in keys && DecodeUriComponent(recipes[i].deviceName).None? ==>
      PoweredNames(keys, recipes) == PoweredNames(keys, recipes[..i])
  {
    var r := recipes[i];
    assert recipes[..i + 1] == recipes[..i] + [r];
    assert [r][1..] == [];
    PoweredNamesAppend(keys, recipes[..i], [r]);
    if r.powerKey in keys && DecodeUriComponent(r.deviceName).None? {
      assert recipes[..i + 1][i] == r;
      PoweredNamesAppend(keys, recipes[..i + 1], recipes[i + 1..]);
      assert recipes[..i + 1] + recipes[i + 1..] == recipes;
    }
  }

  lemma {:induction false} NoPoweredRecipes(keys: seq<string>, recipes: seq<Recipe>)
    requires forall k :: 0 <= k < |recipes| ==> recipes[k].powerKey !in keys
    ensures PoweredNames(keys, recipes) == []
    decreases |recipes|
  {
    if recipes != [] {
      NoPoweredRecipes(keys, recipes[1..]);
    }
  }

  /** A poll that finds nothing powered feeds the sentinel `off` to the gate, once. */
  lemma PollWithNothingPowered(s: ActivityState, b: Brain)
    requires Coherent(s)
    requires b.poweredKeys == Answered(None) || b.poweredKeys == Answered(Some([]))
    ensures UpdateAll(s, PollUpdates(Some(b))) == Update(s, Off)
    ensures UpdateAll(s, PollUpdates(Some(b))).current == Some(Off)
  {
    OffIsCanonical();
    UpdateKeepsCoherent(s, Off);
  }

  /**
   * Last powered recipe wins: when some key is powered and no name fails to
   * decode, a poll leaves the canonical name of the last powered recipe in
   * enumeration order as the current activity.
   */
  lemma PollTakesLastPoweredRecipe(s: ActivityState, b: Brain, j: nat)
    requires Coherent(s)
    requires b.poweredKeys.Answered? && b.poweredKeys.value.Some? && |b.poweredKeys.value.value| > 0
    requires b.recipes.Answered?
    requires var keys, recipes := b.poweredKeys.value.value, b.recipes.value;
      && !Aborts(keys, recipes)
      && j < |recipes| && recipes[j].powerKey in keys
      && forall k :: j < k < |recipes| ==> recipes[k].powerKey !in keys
    ensures UpdateAll(s, PollUpdates(Some(b))).current ==
      Some(Canonical(DecodeUriComponent(b.recipes.value[j].deviceName).value))
  {
    PoweredNamesEndWith(b.poweredKeys.value.value, b.recipes.value, j);
    LastWriteWins(s, PollUpdates(Some(b)));
  }

  /**
   * The poll reads recipe names with `decodeURIComponent`, dispatch with
   * `decodeURI`. So a recipe named `TV%2FAudio` is published as `tv_audio`
   * when it is powered, and a command carrying that published name then
   * matches no recipe, since dispatch sees the name as `tv_2faudio` (under
   * the ASCII stand-in for `snakeCase`; lodash gives `tv_2_faudio`).
   */
  lemma PublishedNameMissedByDispatch()
    ensures var recipe := Recipe("TV%2FAudio", "tv");
      && UpdateAll(Initial, PollUpdates(Some(Brain(Answered([recipe]), Answered(Some(["tv"])))))).published == ["tv_audio"]
      && Dispatch(Some("tv_audio"), [recipe]) == []
  {
    PollPublishesDecodedSlash();
    DispatchMissesDecodedSlash();
  }

  /** The poll reads `TV%2FAudio` through `decodeURIComponent` and publishes `tv_audio`. */
  lemma PollPublishesDecodedSlash()
    ensures var recipe := Recipe("TV%2FAudio", "tv");
      UpdateAll(Initial, PollUpdates(Some(Brain(Answered([recipe]), Answered(Some(["tv"])))))).published == ["tv_audio"]
  {
    EscapedSlashComponentExample();
    DecodedSlashExample();
    PollOfOnePoweredRecipe(Recipe("TV%2FAudio", "tv"), ["tv"]);
  }

  /** A poll over one powered recipe whose name decodes, from the initial state, publishes that name once. */
  lemma PollOfOnePoweredRecipe(recipe: Recipe, keys: seq<string>)
    requires recipe.powerKey in keys && DecodeUriComponent(recipe.deviceName).Some?
    ensures UpdateAll(Initial, PollUpdates(Some(Brain(Answered([recipe]), Answered(Some(keys)))))).published
      == [Canonical(DecodeUriComponent(recipe.deviceName).value)]
  {
    var name := DecodeUriComponent(recipe.deviceName).value;
    assert [recipe][1..] == [];
    assert PollUpdates(Some(Brain(Answered([recipe]), Answered(Some(keys))))) == [name];
    assert [name][1..] == [];
  }

  /** Dispatch reads `TV%2FAudio` through `decodeURI`, which keeps the escape, so `tv_audio` misses it. */
  lemma DispatchMissesDecodedSlash()
    ensures Dispatch(Some("tv_audio"), [Recipe("TV%2FAudio", "tv")]) == []
  {
    var recipe := Recipe("TV%2FAudio", "tv");
    EscapedSlashUriExample();
    EscapedSlashNameExample();
    CanonicalIdempotent("TV/Audio");
    DecodedSlashExample();
    assert NameAt([recipe], 0) == Some("tv_2faudio");
    assert [recipe][1..] == [];
  }

  /** The bridge's one piece of state: the current activity and the publishes made from it. */
  class Bridge {
    var currentActivity: Option<string>
    var published: seq<string>

    function State(): ActivityState
      reads this
    {
      ActivityState(currentActivity, published)
    }

    ghost predicate Valid()
      reads this
    {
      Coherent(State())
    }

    constructor ()
      ensures Valid() && State() == Initial
    {
      currentActivity := None;
      published := [];
    }

    /** `updateCurrentActivity`: the change gate, publishing on change. */
    method UpdateCurrentActivity(newActivity: string)
      requires Valid()
      modifies this
      ensures Valid()
      ensures State() == Update(old(State()), newActivity)
      ensures old(currentActivity) == Some(newActivity) ==>
        currentActivity == old(currentActivity) && published == old(published)
      ensures old(currentActivity) != Some(newActivity) ==>
        currentActivity == Some(Canonical(newActivity)) && published == old(published) + [Canonical(newActivity)]
    {
      UpdateKeepsCoherent(State(), newActivity);
      if currentActivity != Some(newActivity) {
        currentActivity := UpdateActivityName(Some(newActivity));
        published := published + [currentActivity.value];
      }
    }

    /** `sdkPollForCurrentActivity`: one poll, feeding every powered recipe's name to the gate in order. */
    method PollForCurrentActivity(brain: Option<Brain>)
      requires Valid()
      modifies this
      ensures Valid()
      ensures State() == UpdateAll(old(State()), PollUpdates(brain))
      ensures brain == None ==> State() == old(State())
    {
      if brain == None {
        return;
      }
      match brain.value.poweredKeys {
        case Rejected =>
          return;
        case Answered(poweredOnKeys) =>
          if poweredOnKeys == None || |poweredOnKeys.value| == 0 {
            UpdateCurrentActivity(Off);
            return;
          }
          var keys := poweredOnKeys.value;
          var recipes := Enumerated(brain);
          ghost var start := State();
          assert PollUpdates(brain) == PoweredNames(keys, recipes);
          var i := 0;
          while i < |recipes|
            invariant 0 <= i <= |recipes|
            invariant Valid()
            invariant !Aborts(keys, recipes[..i])
            invariant State() == UpdateAll(start, PoweredNames(keys, recipes[..i]))
          {
            PoweredNamesStep(keys, recipes, i);
            if recipes[i].powerKey in keys {
              var decoded := DecodeUriComponent(recipes[i].deviceName);
              if decoded == None {
                // URIError escapes the callback and ends the enumeration.
                break;
              }
              UpdateAllSnoc(start, PoweredNames(keys, recipes[..i]), decoded.value);
              UpdateCurrentActivity(decoded.value);
            }
            i := i + 1;
          }
          if i == |recipes| {
            assert recipes[..i] == recipes;
          }
      }
    }
  }
}
