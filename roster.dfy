/** The pure part of the team logic shared by both copies of it: the
    membership test (`team.some(p => p.id === id)`), the filter that
    removal rebuilds the team with, the messages an add reports, and the
    invariant the team keeps. */
module Roster {
  import opened PokemonTypes

  /** A team never holds more than this many Pokemon. */
  const Capacity := 6

  const TeamFullMessage := "Team is full! Remove a Pokemon first."
  const AlreadyOnTeamMessage := "This Pokemon is already on your team!"

  /** `team.some(p => p.id === id)`: scans the team from the front. */
  predicate OnTeam(team: seq<Pokemon>, id: int)
    ensures OnTeam(team, id) <==> exists i :: 0 <= i < |team| && team[i].id == id
  {
    if team == [] then false
    else team[0].id == id || OnTeam(team[1..], id)
  }

  /** `team.filter(p => p.id !== id)`: the team without any member whose id is `id`. */
  function Without(team: seq<Pokemon>, id: int): (r: seq<Pokemon>)
    ensures |r| <= |team|
    ensures forall p :: p in r <==> p in team && p.id != id
    ensures !OnTeam(r, id)
  {
    if team == [] then []
    else if team[0].id != id then [team[0]] + Without(team[1..], id)
    else Without(team[1..], id)
  }

  /** No two members share an id. */
  ghost predicate DistinctIds(team: seq<Pokemon>) {
    forall i, j :: 0 <= i < j < |team| ==> team[i].id != team[j].id
  }

  /** What the team keeps at all times: the capacity bound and unique ids. */
  ghost predicate RosterInvariant(team: seq<Pokemon>) {
    |team| <= Capacity && DistinctIds(team)
  }

  /** Filtering keeps the relative order: it distributes over concatenation. */
  lemma {:induction false} WithoutAppend(a: seq<Pokemon>, b: seq<Pokemon>, id: int)
    ensures Without(a + b, id) == Without(a, id) + Without(b, id)
  {
    if a == [] {
      assert a + b == b;
    } else {
      assert (a + b)[1..] == a[1..] + b;
      WithoutAppend(a[1..], b, id);
    }
  }

  /** Removing an id no member has leaves the team as it was. */
  lemma {:induction false} WithoutAbsent(team: seq<Pokemon>, id: int)
    requires !OnTeam(team, id)
    ensures Without(team, id) == team
  {
    if team != [] {
      assert !OnTeam(team[1..], id);
      WithoutAbsent(team[1..], id);
    }
  }

  /** Removing the same id twice is the same as removing it once. */
  lemma WithoutIdempotent(team: seq<Pokemon>, id: int)
    ensures Without(Without(team, id), id) == Without(team, id)
  {
    WithoutAbsent(Without(team, id), id);
  }

  /** Removing an id no other member has takes out exactly the one member
      that has it and keeps the rest in their order. */
  lemma {:induction false} WithoutPresent(team: seq<Pokemon>, k: nat)
    requires DistinctIds(team) && k < |team|
    ensures Without(team, team[k].id) == team[..k] + team[k + 1..]
    ensures |Without(team, team[k].id)| == |team| - 1
  {
    var id := team[k].id;
    assert team == team[..k] + ([team[k]] + team[k + 1..]);
    WithoutAppend(team[..k], [team[k]] + team[k + 1..], id);
    WithoutAppend([team[k]], team[k + 1..], id);
    assert !OnTeam(team[..k], id) by {
      forall i | 0 <= i < k ensures team[..k][i].id != id { }
    }
    var after := team[k + 1..];
    assert !OnTeam(after, id) by {
      forall i | 0 <= i < |after| ensures after[i].id != id {
        assert after[i] == team[k + 1 + i];
      }
    }
    WithoutAbsent(team[..k], id);
    WithoutAbsent(team[k + 1..], id);
    assert [team[k]][1..] == [];
  }

  /** A team with unique ids, with a Pokemon put in front whose id it does
      not have, still has unique ids; and conversely. */
  lemma ConsDistinct(p: Pokemon, team: seq<Pokemon>)
    ensures DistinctIds([p] + team) <==> !OnTeam(team, p.id) && DistinctIds(team)
  {
    var t := [p] + team;
    if DistinctIds(t) {
      forall i, j | 0 <= i < j < |team| ensures team[i].id != team[j].id {
        assert t[i + 1] == team[i] && t[j + 1] == team[j];
      }
      forall i | 0 <= i < |team| ensures team[i].id != p.id {
        assert t[0] == p && t[i + 1] == team[i];
      }
    }
  }

  /** Removal never breaks unique ids. */
  lemma {:induction false} WithoutKeepsDistinct(team: seq<Pokemon>, id: int)
    requires DistinctIds(team)
    ensures DistinctIds(Without(team, id))
  {
    if team != [] {
      var tail := team[1..];
      assert team == [team[0]] + tail;
      ConsDistinct(team[0], tail);
      WithoutKeepsDistinct(tail, id);
      if team[0].id != id {
        var rest := Without(tail, id);
        assert !OnTeam(rest, team[0].id) by {
          forall i | 0 <= i < |rest| ensures rest[i].id != team[0].id {
            assert rest[i] in tail;
          }
        }
        ConsDistinct(team[0], rest);
      }
    }
  }

  /** Removal preserves the team invariant. */
  lemma WithoutKeepsInvariant(team: seq<Pokemon>, id: int)
    requires RosterInvariant(team)
    ensures RosterInvariant(Without(team, id))
  {
    WithoutKeepsDistinct(team, id);
  }

  /** Appending a Pokemon whose id is not yet on a team below capacity
      preserves the team invariant. */
  lemma AppendKeepsInvariant(team: seq<Pokemon>, p: Pokemon)
    requires RosterInvariant(team) && |team| < Capacity && !OnTeam(team, p.id)
    ensures RosterInvariant(team + [p])
  {
  }

  /** Removing a Pokemon right after a successful add gives back the team
      as it was before the add. */
  lemma RemoveUndoesAdd(team: seq<Pokemon>, p: Pokemon)
    requires !OnTeam(team, p.id)
    ensures Without(team + [p], p.id) == team
  {
    WithoutAppend(team, [p], p.id);
    WithoutAbsent(team, p.id);
    assert [p][1..] == [];
  }
}
