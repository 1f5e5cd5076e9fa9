/** The record shape the service stores and returns, and the outcomes of its handlers. */
module Records {

  datatype Option<+T> = None | Some(value: T)

  /** One creature's stat sheet. No field is validated: ids may be any integer,
      the stats any integers, `types` any list of labels, and `evolutionId`
      need not name a stored record. */
  datatype Pokemon = Pokemon(
    id: int,
    name: string,
    types: seq<string>,
    total: int,
    hp: int,
    attack: int,
    defense: int,
    attackSpecial: int,
    defenseSpecial: int,
    speed: int,
    evolutionId: Option<int>)

  /** What a get, create, replace or delete handler answers: the record it
      returns, the not-found error, or the conflict error naming the id. */
  datatype Outcome = Ok(pokemon: Pokemon) | NotFound | Conflict(id: int)
}
