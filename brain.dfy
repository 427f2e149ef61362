/**
 * What the remote brain answers during one call. The brain's network calls are
 * not modelled; their answers are inputs.
 */
module NeeoBrain {

  import opened Wrappers

  /** A recipe as enumerated by the brain: its URI-encoded device name and its power key. */
  datatype Recipe = Recipe(deviceName: string, powerKey: string)

  /** The outcome of one asynchronous brain query. */
  datatype Reply<T> = Answered(value: T) | Rejected

  /**
   * The answers of a connected brain: the recipe list (`getRecipes`) and the
   * keys of the powered recipes (`getRecipesPowerState`, which may be nil).
   */
  datatype Brain = Brain(recipes: Reply<seq<Recipe>>, poweredKeys: Reply<Option<seq<string>>>)

  /**
   * The recipes `recipeEnumerator` hands to its callback: none when no brain
   * is connected or the query is rejected (the rejection is only logged).
   */
  function Enumerated(brain: Option<Brain>): (recipes: seq<Recipe>)
    ensures recipes != [] ==> brain.Some? && brain.value.recipes == Answered(recipes)
  {
    match brain
    case None => []
    case Some(b) =>
      match b.recipes
      case Rejected => []
      case Answered(recipes) => recipes
  }
}
