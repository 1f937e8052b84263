/** The inline copy of the team logic in the page script. Rendering and
    the error banner are opaque notifications: the page object records,
    in order, every call it makes to them. */
module MainPage {
  import opened PokemonTypes
  import opened Roster

  /** A call the team logic makes into the page's display code:
      `updateTeamDisplay()` (with the count and the cards it draws from
      `team`) or `showError(message)`. */
  datatype Notice =
    | Rendered(count: int, cards: seq<Pokemon>)
    | ErrorShown(message: string)

  /** The cards the team container shows after the given calls: those of
      the last render, or none before the first render. */
  function Displayed(log: seq<Notice>): (cards: seq<Pokemon>)
  {
    if log == [] then []
    else match log[|log| - 1]
      case Rendered(_, cards) => cards
      case ErrorShown(_) => Displayed(log[..|log| - 1])
  }

  /** The number the team counter shows after the given calls: that of
      the last render, or 0 before the first render. */
  function DisplayedCount(log: seq<Notice>): (n: int)
  {
    if log == [] then 0
    else match log[|log| - 1]
      case Rendered(count, _) => count
      case ErrorShown(_) => DisplayedCount(log[..|log| - 1])
  }

  class Page {
    /** The script's `team` state. */
    var team: seq<Pokemon>
    /** Every display call made so far, oldest first. */
    var log: seq<Notice>

    /** The team invariant, and the display shows the current team and its size. */
    ghost predicate Valid()
      reads this
    {
      RosterInvariant(team) && Displayed(log) == team && DisplayedCount(log) == |team|
    }

    /** The script starts with an empty team and has drawn nothing yet. */
    constructor ()
      ensures Valid() && team == [] && log == []
    {
      team := [];
      log := [];
    }

    /** `updateTeamDisplay()`: redraws the team container and the counter from `team`. */
    method UpdateTeamDisplay()
      modifies this
      ensures team == old(team)
      ensures log == old(log) + [Rendered(|team|, team)]
      ensures Displayed(log) == team && DisplayedCount(log) == |team|
    {
      log := log + [Rendered(|team|, team)];
    }

    /** `showError(message)`: sets the error banner; leaves the team display as it was. */
    method ShowError(message: string)
      modifies this
      ensures team == old(team)
      ensures log == old(log) + [ErrorShown(message)]
      ensures Displayed(log) == Displayed(old(log)) && DisplayedCount(log) == DisplayedCount(old(log))
    {
      log := log + [ErrorShown(message)];
      assert log[..|log| - 1] == old(log);
    }

    /** A full team reports "full" and returns before any redraw; a
        duplicate reports "already on your team"; otherwise the Pokemon is
        appended, the team is redrawn and the banner is cleared. */
    method AddToTeam(pokemon: Pokemon)
      requires Valid()
      modifies this
      ensures Valid()
      ensures |old(team)| >= Capacity ==>
                team == old(team) && log == old(log) + [ErrorShown(TeamFullMessage)]
      ensures |old(team)| < Capacity && OnTeam(old(team), pokemon.id) ==>
                team == old(team) && log == old(log) + [ErrorShown(AlreadyOnTeamMessage)]
      ensures |old(team)| < Capacity && !OnTeam(old(team), pokemon.id) ==>
                team == old(team) + [pokemon] &&
                log == old(log) + [Rendered(|team|, team), ErrorShown("")]
    {
      if |team| >= Capacity {
        ShowError(TeamFullMessage);
        return;
      }
      if OnTeam(team, pokemon.id) {
        ShowError(AlreadyOnTeamMessage);
        return;
      }
      AppendKeepsInvariant(team, pokemon);
      team := team + [pokemon];
      UpdateTeamDisplay();
      ShowError("");
    }

    /** Rebuilds `team` without the members whose id is `pokemonId`, then redraws. */
    method RemoveFromTeam(pokemonId: int)
      requires Valid()
      modifies this
      ensures Valid()
      ensures team == Without(old(team), pokemonId)
      ensures log == old(log) + [Rendered(|team|, team)]
    {
      WithoutKeepsInvariant(team, pokemonId);
      team := Without(team, pokemonId);
      UpdateTeamDisplay();
    }
  }
}
