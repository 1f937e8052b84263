/** The catalog record that the page fetches and keeps on its team. */
module PokemonTypes {

  /** One Pokemon: `id` is the only key the team compares on; the other
      fields are display data and are never changed once fetched. */
  datatype Pokemon = Pokemon(id: int, name: string, image: string, types: seq<string>)
}
