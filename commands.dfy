/**
 * Command dispatch (`startActivity`): turn a command from the bus into at
 * most one power action on the brain's recipes.
 */
module Commands {

  import opened Wrappers
  import opened Uri
  import opened ActivityName
  import opened NeeoBrain

  /** A brain action, naming the recipe by its position in the enumeration. */
  datatype Action = PowerOn(index: nat) | PowerOff(index: nat)

  /**
   * The canonical name of recipe `k`, read through `decodeURI`; `None` when
   * the decoder raises URIError.
   */
  function NameAt(recipes: seq<Recipe>, k: nat): (name: Option<string>)
    requires k < |recipes|
    ensures name.None? <==> DecodeUri(recipes[k].deviceName).None?
  {
    match DecodeUri(recipes[k].deviceName)
    case None => None
    case Some(decoded) => Some(Canonical(decoded))
  }

  /** The canonical names of the recipes, in enumeration order, each read as `NameAt` reads it. */
  function Names(recipes: seq<Recipe>): seq<Option<string>> {
    seq(|recipes|, k requires 0 <= k < |recipes| => NameAt(recipes, k))
  }

  /**
   * The actions fired while scanning the recipes' names from position `i` on:
   * the first recipe reached either fires and ends the scan, or is passed
   * over. A URIError (a missing name) ends the enumeration.
   */
  function Scan(target: string, powerOff: bool, names: seq<Option<string>>, i: nat): (acts: seq<Action>)
    ensures forall a :: a in acts ==> i <= a.index < |names|
    decreases |names| - i
  {
    if i >= |names| then []
    else
      match names[i]
      case None => []
      case Some(name) =>
        if powerOff then [PowerOff(i)] + (if name == target then [PowerOn(i)] else [])
        else if name == target then [PowerOn(i)]
        else Scan(target, powerOff, names, i + 1)
  }

  /**
   * Reference definition of dispatch: a nil command does nothing; otherwise
   * the target is the command's canonical name and the power-off flag is set
   * only by the literal command `off`.
   */
  function Dispatch(command: Option<string>, recipes: seq<Recipe>): (acts: seq<Action>)
    ensures forall a :: a in acts ==> a.index < |recipes|
    ensures command != Some(Off) ==> forall a :: a in acts ==> a.PowerOn?
  {
    match command
    case None => []
    case Some(raw) =>
      ScanTouchesOneRecipe(Canonical(raw), raw == Off, Names(recipes), 0);
      Scan(Canonical(raw), raw == Off, Names(recipes), 0)
  }

  /** Name `k` exists, decodes, and does not match. */
  predicate Missed(target: string, names: seq<Option<string>>, k: nat) {
    k < |names| && names[k].Some? && names[k] != Some(target)
  }

  predicate MissedBetween(target: string, names: seq<Option<string>>, i: nat, j: nat) {
    forall k: nat :: i <= k < j ==> Missed(target, names, k)
  }

  /** Name `j` is the first that matches, with every earlier name decoded and missed. */
  predicate FirstMatch(target: string, names: seq<Option<string>>, j: nat) {
    j < |names| && names[j] == Some(target) && MissedBetween(target, names, 0, j)
  }

  /** The `startActivity` loop: one pass over the recipes, guarded by a `done` flag. */
  method StartActivity(inActivity: Option<string>, brain: Option<Brain>) returns (actions: seq<Action>)
    ensures actions == Dispatch(inActivity, Enumerated(brain))
    ensures inActivity == None ==> actions == []
  {
    actions := [];
    if inActivity == None {
      return;
    }
    var search := UpdateActivityName(inActivity).value;
    var powerOff := inActivity.value == Off;
    var done := false;
    var recipes := Enumerated(brain);
    ghost var names := Names(recipes);
    var i := 0;
    while i < |recipes|
      invariant 0 <= i <= |recipes|
      invariant !done ==> actions == [] && Scan(search, powerOff, names, i) == Scan(search, powerOff, names, 0)
      invariant done ==> actions == Scan(search, powerOff, names, 0)
    {
      if !done {
        var decoded := DecodeUri(recipes[i].deviceName);
        if decoded == None {
          // URIError escapes the callback and ends the enumeration.
          assert names[i] == None;
          break;
        }
        var deviceName := Canonical(decoded.value);
        assert names[i] == Some(deviceName);
        if powerOff {
          actions := actions + [PowerOff(i)];
          done := true;
        }
        if deviceName == search {
          actions := actions + [PowerOn(i)];
          done := true;
        }
      }
      i := i + 1;
    }
  }

  /**
   * A scan touches at most one recipe: at most two actions, all on the same
   * recipe, a power-off (if any) before the power-on, and no power-off at all
   * without the flag.
   */
  lemma {:induction false} ScanTouchesOneRecipe(target: string, powerOff: bool, names: seq<Option<string>>, i: nat)
    ensures var acts := Scan(target, powerOff, names, i);
      && |acts| <= 2
      && (forall a :: a in acts ==> i <= a.index < |names|)
      && (forall a, b :: a in acts && b in acts ==> a.index == b.index)
      && (|acts| == 2 ==> acts[0].PowerOff? && acts[1].PowerOn?)
      && (!powerOff ==> forall a :: a in acts ==> a.PowerOn?)
    decreases |names| - i
  {
    if i < |names| && names[i].Some? && !powerOff && names[i] != Some(target) {
      ScanTouchesOneRecipe(target, powerOff, names, i + 1);
    }
  }

  /** Without the flag, the first match from `i` is the recipe the scan powers on. */
  lemma {:induction false} ScanPowersOnFirstMatch(target: string, names: seq<Option<string>>, i: nat, j: nat)
    requires i <= j < |names| && names[j] == Some(target) && MissedBetween(target, names, i, j)
    ensures Scan(target, false, names, i) == [PowerOn(j)]
    decreases j - i
  {
    if i < j {
      assert Missed(target, names, i);
      assert MissedBetween(target, names, i + 1, j);
      ScanPowersOnFirstMatch(target, names, i + 1, j);
    }
  }

  /** Without the flag, a recipe the scan powers on is the first match from `i`. */
  lemma {:induction false} ScanPowersOnOnlyFirstMatch(target: string, names: seq<Option<string>>, i: nat, j: nat)
    requires Scan(target, false, names, i) == [PowerOn(j)]
    ensures i <= j < |names| && names[j] == Some(target) && MissedBetween(target, names, i, j)
    decreases |names| - i
  {
    assert PowerOn(j) in Scan(target, false, names, i);
    if names[i] != Some(target) {
      assert Missed(target, names, i);
      ScanPowersOnOnlyFirstMatch(target, names, i + 1, j);
    }
  }

  /** Without the flag, the scan powers on recipe `j` exactly when `j` is the first match from `i`. */
  lemma ScanFindsFirstMatch(target: string, names: seq<Option<string>>, i: nat, j: nat)
    requires i <= j
    ensures Scan(target, false, names, i) == [PowerOn(j)] <==>
      j < |names| && names[j] == Some(target) && MissedBetween(target, names, i, j)
  {
    if Scan(target, false, names, i) == [PowerOn(j)] {
      ScanPowersOnOnlyFirstMatch(target, names, i, j);
    }
    if j < |names| && names[j] == Some(target) && MissedBetween(target, names, i, j) {
      ScanPowersOnFirstMatch(target, names, i, j);
    }
  }

  /** Dispatch touches at most one recipe, and only the literal `off` powers anything off. */
  lemma DispatchTouchesOneRecipe(command: Option<string>, recipes: seq<Recipe>)
    ensures var acts := Dispatch(command, recipes);
      && |acts| <= 2
      && (forall a :: a in acts ==> a.index < |recipes|)
      && (forall a, b :: a in acts && b in acts ==> a.index == b.index)
      && (|acts| == 2 ==> acts == [PowerOff(acts[0].index), PowerOn(acts[0].index)])
      && (command != Some(Off) ==> forall a :: a in acts ==> a.PowerOn?)
  {
    if command.Some? {
      var raw := command.value;
      ScanTouchesOneRecipe(Canonical(raw), raw == Off, Names(recipes), 0);
    }
  }

  /**
   * A power-off action is fired iff the command is the literal `off` and the
   * first recipe's name decodes; spellings such as `OFF` or `PowerOff`, which
   * normalise to `off` as well, never power anything off.
   */
  lemma OnlyLiteralOffPowersOff(raw: string, recipes: seq<Recipe>)
    ensures (exists a :: a in Dispatch(Some(raw), recipes) && a.PowerOff?) <==>
      raw == Off && |recipes| > 0 && NameAt(recipes, 0).Some?
  {
    ScanTouchesOneRecipe(Canonical(raw), raw == Off, Names(recipes), 0);
    if raw == Off && |recipes| > 0 && NameAt(recipes, 0).Some? {
      assert PowerOff(0) in Dispatch(Some(raw), recipes);
    }
  }

  /**
   * On the literal `off`, only the first recipe is touched: it is powered off,
   * and also powered on when its own name normalises to `off`.
   */
  lemma DispatchOff(recipes: seq<Recipe>)
    ensures Dispatch(Some(Off), recipes) ==
      if |recipes| == 0 || NameAt(recipes, 0).None? then []
      else [PowerOff(0)] + (if NameAt(recipes, 0) == Some(Off) then [PowerOn(0)] else [])
  {
    OffIsCanonical();
  }

  /** Any other command powers on exactly the first recipe whose canonical name matches it. */
  lemma DispatchPowersOnFirstMatch(raw: string, recipes: seq<Recipe>, j: nat)
    requires raw != Off
    ensures Dispatch(Some(raw), recipes) == [PowerOn(j)] <==> FirstMatch(Canonical(raw), Names(recipes), j)
  {
    ScanFindsFirstMatch(Canonical(raw), Names(recipes), 0, j);
  }

  /** A command that matches no recipe fires nothing, and raises no error. */
  lemma DispatchWithoutMatchDoesNothing(raw: string, recipes: seq<Recipe>)
    requires raw != Off
    ensures Dispatch(Some(raw), recipes) == [] <==> forall j: nat :: !FirstMatch(Canonical(raw), Names(recipes), j)
  {
    var acts := Dispatch(Some(raw), recipes);
    ScanTouchesOneRecipe(Canonical(raw), false, Names(recipes), 0);
    if acts == [] {
      forall j: nat ensures !FirstMatch(Canonical(raw), Names(recipes), j) {
        DispatchPowersOnFirstMatch(raw, recipes, j);
      }
    } else {
      var j := acts[0].index;
      assert acts[0] in acts;
      assert acts == [PowerOn(j)];
      DispatchPowersOnFirstMatch(raw, recipes, j);
    }
  }
}
