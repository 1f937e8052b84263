/** Client code that uses only the contracts of the two team copies:
    the usage scenarios the team is meant to support. */
module Scenarios {
  import opened PokemonTypes
  import opened Roster
  import TeamManager
  import MainPage

  /** Two Pokemon with different ids added to an empty team end up on it in insertion order. */
  method AddTwoInOrder() {
    var m := new TeamManager.TeamManager();
    var pikachu := Pokemon(25, "pikachu", "pikachu.png", ["electric"]);
    var bulbasaur := Pokemon(1, "bulbasaur", "bulbasaur.png", ["grass", "poison"]);
    var msg := m.AddToTeam(pikachu);
    assert msg == "" && m.team == [pikachu];
    msg := m.AddToTeam(bulbasaur);
    assert msg == "" && m.team == [pikachu, bulbasaur];
  }

  /** Adding the same Pokemon again is rejected as a duplicate and changes nothing. */
  method AddDuplicate() {
    var m := new TeamManager.TeamManager();
    var p := Pokemon(1, "bulbasaur", "bulbasaur.png", ["grass", "poison"]);
    var msg := m.AddToTeam(p);
    msg := m.AddToTeam(p.(name := "renamed"));
    assert msg == AlreadyOnTeamMessage && m.team == [p];
  }

  /** A full team rejects any further Pokemon as "full", even one already on it. */
  method AddToFullTeam(m: TeamManager.TeamManager, p: Pokemon)
    requires m.Valid() && |m.team| == Capacity
    modifies m
  {
    var before := m.team;
    var msg := m.AddToTeam(p);
    assert msg == TeamFullMessage && m.team == before && |m.team| == 6;
  }

  /** On the page, a remove redraws the counter with the new size, and a
      rejected add leaves the drawn team as it was. */
  method PageCountFollowsTeam() {
    var page := new MainPage.Page();
    var p := Pokemon(7, "squirtle", "squirtle.png", ["water"]);
    page.AddToTeam(p);
    assert MainPage.DisplayedCount(page.log) == 1;
    page.AddToTeam(p);
    assert MainPage.Displayed(page.log) == [p];
    page.RemoveFromTeam(7);
    assert page.team == [] && MainPage.DisplayedCount(page.log) == 0;
  }
}
