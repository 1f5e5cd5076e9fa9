/** Clients of the store that use nothing but its contracts. */
module Scenarios {
  import opened Records
  import opened Collation
  import opened Store

  function Bulbasaur(): (p: Pokemon) {
    Pokemon(1, "Bulbasaur", ["Grass", "Poison"], 318, 45, 49, 49, 65, 65, 45, None)
  }

  /** Seeded with Bulbasaur alone: the total is one, key 2 is absent, a second
      record with id 1 conflicts, one with id 2 is stored, the labels are those
      of Bulbasaur, and deleting key 1 answers with Bulbasaur and then key 1 is gone. */
  method BulbasaurScenario()
    returns (total: nat, duplicate: Outcome, created: Outcome, types: seq<string>, deleted: Outcome, again: Outcome)
    ensures total == 1
    ensures duplicate == Conflict(1)
    ensures created == Ok(Bulbasaur().(id := 2, name := "Ivysaur", types := ["Poison"]))
    ensures types == ["Grass", "Poison"]
    ensures deleted == Ok(Bulbasaur())
    ensures again == NotFound
  {
    var store := new PokemonStore([Bulbasaur()]);
    total := store.Count();
    assert store.Get(1) == Ok(Bulbasaur());
    assert store.Get(2) == NotFound;
    duplicate := store.Create(Bulbasaur());
    created := store.Create(Bulbasaur().(id := 2, name := "Ivysaur", types := ["Poison"]));
    types := store.AllTypes();
    assert HasLabel(store.loaded, "Grass") && HasLabel(store.loaded, "Poison") by {
      assert store.loaded[0] == Bulbasaur();
    }
    assert StrictlyAscending(["Grass", "Poison"]) by {
      assert Below("Grass", "Poison");
    }
    StrictlyAscendingUnique(types, ["Grass", "Poison"]);
    deleted := store.Delete(1);
    again := store.Get(1);
  }

  /** Keys come from positions, not from the records' own ids, and a
      replacement may store a record whose id differs from its key. */
  method KeyIdDivergence() returns (byPosition: Outcome, byOwnId: Outcome, replaced: Outcome)
    ensures byPosition == Ok(Bulbasaur().(id := 25))
    ensures byOwnId == NotFound
    ensures replaced.Ok? && replaced.pokemon.id == 7
  {
    var store := new PokemonStore([Bulbasaur().(id := 25)]);
    byPosition := store.Get(1);
    byOwnId := store.Get(25);
    var r := store.Replace(1, Bulbasaur().(id := 7));
    replaced := store.Get(1);
  }

  /** The sorted labels are the same before and after any create, replace
      and delete, because they are computed from the list loaded at start-up. */
  method TypesUnaffectedByWrites(store: PokemonStore, p: Pokemon, q: Pokemon, id: int)
    returns (before: seq<string>, after: seq<string>)
    requires store.Valid() && id >= 1
    modifies store
    ensures before == after
  {
    before := store.AllTypes();
    var r := store.Create(p);
    r := store.Replace(id, q);
    r := store.Delete(id);
    after := store.AllTypes();
    StrictlyAscendingUnique(before, after);
  }
}
