/** The exported team module: its module-level `team` array becomes the
    field of one object, and the error callback becomes the message that
    `AddToTeam` returns. */
module TeamManager {
  import opened PokemonTypes
  import opened Roster

  class TeamManager {
    /** The module's `team` array, in insertion order. */
    var team: seq<Pokemon>

    ghost predicate Valid()
      reads this
    {
      RosterInvariant(team)
    }

    /** The module starts with an empty team. */
    constructor ()
      ensures Valid() && team == []
    {
      team := [];
    }

    /** Checks capacity, then duplicates, then appends; returns the one
        message handed to the error callback ("" on success). */
    method AddToTeam(pokemon: Pokemon) returns (message: string)
      requires Valid()
      modifies this
      ensures Valid()
      ensures |old(team)| >= Capacity ==> team == old(team) && message == TeamFullMessage
      ensures |old(team)| < Capacity && OnTeam(old(team), pokemon.id) ==>
                team == old(team) && message == AlreadyOnTeamMessage
      ensures |old(team)| < Capacity && !OnTeam(old(team), pokemon.id) ==>
                team == old(team) + [pokemon] && message == ""
    {
      if |team| >= Capacity {
        message := TeamFullMessage;
        return;
      }
      if OnTeam(team, pokemon.id) {
        message := AlreadyOnTeamMessage;
        return;
      }
      AppendKeepsInvariant(team, pokemon);
      team := team + [pokemon];
      message := "";
    }

    /** Replaces the team by the members whose id differs from `pokemonId`. */
    method RemoveFromTeam(pokemonId: int)
      requires Valid()
      modifies this
      ensures Valid()
      ensures team == Without(old(team), pokemonId)
    {
      WithoutKeepsInvariant(team, pokemonId);
      team := Without(team, pokemonId);
    }
  }
}
