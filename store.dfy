/** The in-memory record store of the service (`pokemonsLists` in main.py)
    and the handlers that read and write it. */
module Store {
  import opened Records
  import opened Sequences
  import opened Collation

  /** The keys 1, 2, ..., n, in the order the start-up comprehension inserts them. */
  function InitialOrder(n: nat): (r: seq<int>)
    ensures |r| == n
    ensures forall i :: 0 <= i < n ==> r[i] == i + 1
  {
    if n == 0 then [] else InitialOrder(n - 1) + [n]
  }

  /** The dictionary the start-up comprehension builds from the loaded list:
      the i-th entry under key i + 1, whatever the entry's own `id` says. */
  function InitialEntries(loaded: seq<Pokemon>): (m: map<int, Pokemon>)
    ensures forall k :: k in m <==> 1 <= k <= |loaded|
    ensures forall i :: 0 <= i < |loaded| ==> m[i + 1] == loaded[i]
  {
    if loaded == [] then map[]
    else InitialEntries(loaded[..|loaded| - 1])[|loaded| := loaded[|loaded| - 1]]
  }

  /** The records of `m` listed key by key in the given order. */
  function Listing(order: seq<int>, m: map<int, Pokemon>): (r: seq<Pokemon>)
    requires forall i :: 0 <= i < |order| ==> order[i] in m
    ensures |r| == |order|
    ensures forall i :: 0 <= i < |order| ==> r[i] == m[order[i]]
  {
    if order == [] then []
    else Listing(order[..|order| - 1], m) + [m[order[|order| - 1]]]
  }

  /** Inserting a new key at the end of the order appends its record to the listing. */
  lemma ListingAppend(order: seq<int>, m: map<int, Pokemon>, k: int, p: Pokemon)
    requires forall i :: 0 <= i < |order| ==> order[i] in m
    requires k !in order
    ensures Listing(order + [k], m[k := p]) == Listing(order, m) + [p]
  {
  }

  /** Overwriting the record of a listed key changes the listing at that key's place only. */
  lemma ListingReplace(order: seq<int>, m: map<int, Pokemon>, i: nat, p: Pokemon)
    requires forall j :: 0 <= j < |order| ==> order[j] in m
    requires i < |order| && NoDup(order)
    ensures Listing(order, m[order[i] := p]) == Listing(order, m)[i := p]
  {
  }

  /** Removing a listed key and its position removes its record from the listing. */
  lemma ListingRemove(order: seq<int>, m: map<int, Pokemon>, i: nat)
    requires forall j :: 0 <= j < |order| ==> order[j] in m
    requires i < |order| && NoDup(order)
    ensures var rest := order[..i] + order[i + 1..];
      && (forall j :: 0 <= j < |rest| ==> rest[j] in m - {order[i]})
      && Listing(rest, m - {order[i]}) == Listing(order, m)[..i] + Listing(order, m)[i + 1..]
  {
  }

  /** Taking a key out of a store's map and out of its place in the key order
      keeps the two in step, and is what removing it from the order means. */
  lemma RemoveKey(order: seq<int>, m: map<int, Pokemon>, id: int)
    requires NoDup(order) && m.Keys == Elems(order) && id in m
    ensures var i := IndexOf(order, id); var rest := order[..i] + order[i + 1..];
      && NoDup(rest)
      && (m - {id}).Keys == Elems(rest)
      && rest == Without(order, id)
      && |rest| == |order| - 1
      && Listing(rest, m - {id}) == Listing(order, m)[..i] + Listing(order, m)[i + 1..]
  {
    var i := IndexOf(order, id);
    WithoutAt(order, id);
    ElemsWithout(order, id);
    ListingRemove(order, m, i);
  }

  /** Some record of `ps` carries the type label `t`. */
  ghost predicate HasLabel(ps: seq<Pokemon>, t: string) {
    exists i :: 0 <= i < |ps| && t in ps[i].types
  }

  /** Looking at one more record adds exactly that record's labels. */
  lemma HasLabelExtend(ps: seq<Pokemon>, i: nat, t: string)
    requires i < |ps|
    ensures HasLabel(ps[..i + 1], t) <==> HasLabel(ps[..i], t) || t in ps[i].types
  {
  }

  class PokemonStore {
    /** The live dictionary from key to record. */
    var pokemons: map<int, Pokemon>
    /** The keys of `pokemons` in the dictionary's iteration order, which is
        the order in which they were first inserted. */
    var order: seq<int>
    /** The list read at start-up, which no handler writes. */
    const loaded: seq<Pokemon>

    ghost predicate Valid()
      reads this
    {
      NoDup(order) && pokemons.Keys == Elems(order)
    }

    /** What listing all records returns. */
    ghost function Listed(): (l: seq<Pokemon>)
      reads this
      requires Valid()
    {
      Listing(order, pokemons)
    }

    /** Start-up: every loaded entry, keyed by its 1-based position. */
    constructor (loaded: seq<Pokemon>)
      ensures Valid()
      ensures this.loaded == loaded
      ensures pokemons == InitialEntries(loaded)
      ensures order == InitialOrder(|loaded|)
      ensures Count() == |loaded|
    {
      this.loaded := loaded;
      pokemons := InitialEntries(loaded);
      order := InitialOrder(|loaded|);
      new;
      forall k | k in pokemons ensures k in order {
        assert order[k - 1] == k;
      }
    }

    /** `get_total_pokemons`: the number of stored records, which is the
        length of the list that listing all records returns. */
    function Count(): (n: nat)
      reads this
      requires Valid()
      ensures n == |order| == |Listed()|
    {
      DistinctCard(order);
      |pokemons|
    }

    /** `get_all_pokemons`: every stored record, in iteration order. */
    method ListAll() returns (res: seq<Pokemon>)
      requires Valid()
      ensures |res| == Count()
      ensures forall i :: 0 <= i < |res| ==> res[i] == pokemons[order[i]]
      ensures res == Listed()
    {
      res := [];
      var i := 0;
      while i < |order|
        invariant 0 <= i <= |order|
        invariant |res| == i
        invariant forall k :: 0 <= k < i ==> res[k] == pokemons[order[k]]
      {
        res := res + [pokemons[order[i]]];
        i := i + 1;
      }
    }

    /** `get_pokemon_by_id`: the record stored under `id`, or not-found. */
    function Get(id: int): (r: Outcome)
      reads this
      requires id >= 1
      ensures r.Ok? <==> id in pokemons
      ensures r.Ok? ==> r.pokemon == pokemons[id]
      ensures !r.Ok? ==> r == NotFound
    {
      if id in pokemons then Ok(pokemons[id]) else NotFound
    }

    /** A record that can be got is one of the listed records, at its key's place. */
    lemma GetIsListed(id: int)
      requires Valid() && id >= 1
      ensures Get(id).Ok? <==> id in order
      ensures Get(id).Ok? ==> Get(id).pokemon in Listed()
      ensures Get(id).Ok? ==> Listed()[IndexOf(order, id)] == Get(id).pokemon
    {
    }

    /** `create_pokemon`: stores `p` under its own `id` unless that key is taken. */
    method Create(p: Pokemon) returns (r: Outcome)
      requires Valid()
      modifies this
      ensures Valid()
      ensures p.id in old(pokemons) ==>
        r == Conflict(p.id) && pokemons == old(pokemons) && order == old(order)
      ensures p.id !in old(pokemons) ==>
        && r == Ok(p)
        && pokemons == old(pokemons)[p.id := p]
        && order == old(order) + [p.id]
        && Count() == old(Count()) + 1
        && Listed() == old(Listed()) + [p]
        && (p.id >= 1 ==> Get(p.id) == Ok(p))
    {
      if p.id in pokemons {
        return Conflict(p.id);
      }
      ghost var before := Listed();
      DistinctCard(order);
      ListingAppend(order, pokemons, p.id, p);
      pokemons := pokemons[p.id := p];
      order := order + [p.id];
      DistinctCard(order);
      r := Ok(p);
    }

    /** `update_pokemon`: overwrites the record under `id`, which must exist,
        with `p`; `p.id` need not equal `id`. */
    method Replace(id: int, p: Pokemon) returns (r: Outcome)
      requires Valid()
      requires id >= 1
      modifies this
      ensures Valid()
      ensures id !in old(pokemons) ==>
        r == NotFound && pokemons == old(pokemons) && order == old(order)
      ensures id in old(pokemons) ==>
        && r == Ok(p)
        && pokemons == old(pokemons)[id := p]
        && order == old(order)
        && Count() == old(Count())
        && Listed() == old(Listed())[IndexOf(order, id) := p]
        && Get(id) == Ok(p)
    {
      if id !in pokemons {
        return NotFound;
      }
      ListingReplace(order, pokemons, IndexOf(order, id), p);
      pokemons := pokemons[id := p];
      r := Ok(p);
    }

    /** `delete_pokemon`: removes the record under `id`, which must exist,
        and answers with it. */
    method Delete(id: int) returns (r: Outcome)
      requires Valid()
      requires id >= 1
      modifies this
      ensures Valid()
      ensures id !in old(pokemons) ==>
        r == NotFound && pokemons == old(pokemons) && order == old(order)
      ensures id in old(pokemons) ==>
        && r == Ok(old(pokemons)[id])
        && pokemons == old(pokemons) - {id}
        && order == Without(old(order), id)
        && Count() == old(Count()) - 1
        && Listed() == old(Listed()[..IndexOf(order, id)] + Listed()[IndexOf(order, id) + 1..])
        && Get(id) == NotFound
    {
      if id !in pokemons {
        return NotFound;
      }
      r := Ok(pokemons[id]);
      var i := IndexOf(order, id);
      RemoveKey(order, pokemons, id);
      pokemons := pokemons - {id};
      order := order[..i] + order[i + 1..];
    }

    /** `get_all_types`: every type label of the records loaded at start-up,
        without repetition, in ascending order. It reads `loaded`, not the
        live dictionary, so no create, replace or delete changes its answer. */
    method AllTypes() returns (types: seq<string>)
      ensures StrictlyAscending(types)
      ensures forall t :: t in types <==> HasLabel(loaded, t)
    {
      var found: seq<string> := [];
      var i := 0;
      while i < |loaded|
        invariant 0 <= i <= |loaded|
        invariant NoDup(found)
        invariant forall t :: t in found <==> HasLabel(loaded[..i], t)
      {
        var labels := loaded[i].types;
        var j := 0;
        while j < |labels|
          invariant 0 <= j <= |labels|
          invariant NoDup(found)
          invariant forall t :: t in found <==> HasLabel(loaded[..i], t) || t in labels[..j]
        {
          if labels[j] !in found {
            found := found + [labels[j]];
          }
          assert labels[..j + 1] == labels[..j] + [labels[j]];
          j := j + 1;
        }
        assert labels[..j] == labels;
        forall t ensures HasLabel(loaded[..i + 1], t) <==> HasLabel(loaded[..i], t) || t in labels {
          HasLabelExtend(loaded, i, t);
        }
        i := i + 1;
      }
      assert loaded[..i] == loaded;
      var a := new string[|found|](k requires 0 <= k < |found| => found[k]);
      assert a[..] == found;
      SortLabels(a);
      types := a[..];
      PermutationKeepsNoDup(found, types);
      AscendingDistinct(types);
      forall t ensures t in types <==> t in found {
        assert t in types <==> t in multiset(types);
        assert t in found <==> t in multiset(found);
      }
    }
  }
}
