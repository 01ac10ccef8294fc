/** The in-memory Coffee store behind the `/coffees` endpoints: one list of Coffee
    references, changed in place by the create, update-or-append and delete handlers. */
module RestApiDemo {
  import opened Wrappers
  import opened CoffeeRecord
  import opened CoffeeList

  /** The names the store is seeded with, in seeding order. */
  const SeedNames: seq<string> := ["Cafe Cereze", "Cafe Ganador", "Cafe Lareno", "Cafe Tres Pontas"]

  class RestApiDemoController {
    var coffees: seq<Coffee>

    /** Seeds the store with four fresh records carrying the seed names. The source draws
        each id from a random UUID; here the four ids are supplied. */
    constructor (id0: string, id1: string, id2: string, id3: string)
      ensures |coffees| == |SeedNames| == 4
      ensures coffees[0].id == id0 && coffees[1].id == id1 && coffees[2].id == id2 && coffees[3].id == id3
      ensures forall k | 0 <= k < |coffees| :: fresh(coffees[k]) && coffees[k].name == SeedNames[k]
      ensures forall i, j | 0 <= i < j < |coffees| :: coffees[i] != coffees[j]
    {
      var c0 := new Coffee(id0, SeedNames[0]);
      var c1 := new Coffee(id1, SeedNames[1]);
      var c2 := new Coffee(id2, SeedNames[2]);
      var c3 := new Coffee(id3, SeedNames[3]);
      coffees := [c0, c1, c2, c3];
    }

    /** The whole list, in insertion order. */
    method GetCoffees() returns (r: seq<Coffee>)
      ensures r == coffees
    {
      r := coffees;
    }

    /** Scans the list in order and stops at the first record whose id is `id`;
        "not found" is `None`, not an error. Nothing is changed. */
    method GetCoffeeById(id: string) returns (r: Option<Coffee>)
      ensures r == FirstWithId(coffees, id)
      ensures r.None? <==> forall k | 0 <= k < |coffees| :: coffees[k].id != id
      ensures r.Some? ==> r.value in coffees && r.value.id == id
    {
      var i := 0;
      while i < |coffees|
        invariant 0 <= i <= |coffees|
        invariant FirstWithId(coffees[i..], id) == FirstWithId(coffees, id)
      {
        var c := coffees[i];
        if c.id == id {
          return Some(c);
        }
        assert coffees[i..][1..] == coffees[i + 1..];
        i := i + 1;
      }
      return None;
    }

    /** Appends the body record and returns it. */
    method PostCoffee(coffee: Coffee) returns (r: Coffee)
      modifies this
      ensures coffees == old(coffees) + [coffee]
      ensures r == coffee
    {
      coffees := coffees + [coffee];
      r := coffee;
    }

    /** Overwrites every position whose record has id `id` with the body record, and
        appends the body when no position matched. The body is stored as it is: its
        own id need not be `id`. Returns the body in both cases. */
    method PutCoffee(id: string, coffee: Coffee) returns (r: Coffee)
      modifies this
      ensures r == coffee
      ensures coffees == Upserted(old(coffees), id, coffee)
      ensures HasId(old(coffees), id) ==>
                |coffees| == |old(coffees)| &&
                forall k | 0 <= k < |coffees| ::
                  coffees[k] == if old(coffees)[k].id == id then coffee else old(coffees)[k]
      ensures !HasId(old(coffees), id) ==> coffees == old(coffees) + [coffee]
    {
      var coffeeIndex := -1;
      var i := 0;
      while i < |coffees|
        invariant 0 <= i <= |coffees| == |old(coffees)|
        invariant -1 <= coffeeIndex < i
        invariant forall k | 0 <= k < i ::
                    coffees[k] == if old(coffees)[k].id == id then coffee else old(coffees)[k]
        invariant forall k | i <= k < |coffees| :: coffees[k] == old(coffees)[k]
        invariant coffeeIndex == -1 <==> forall k | 0 <= k < i :: old(coffees)[k].id != id
      {
        var c := coffees[i];
        if c.id == id {
          // `indexOf` finds `c` at `i`, unless the body is `c` itself and already sits
          // at an earlier position, where storing it again changes nothing.
          coffeeIndex := IndexOf(coffees, c);
          assert coffeeIndex < i ==> coffees[coffeeIndex] == coffee;
          coffees := coffees[coffeeIndex := coffee];
        }
        i := i + 1;
      }
      if coffeeIndex == -1 {
        r := PostCoffee(coffee);
      } else {
        r := coffee;
      }
    }

    /** Removes every record whose id is `id`, keeping the others in their order;
        a silent no-op when none matches. */
    method DeleteCoffee(id: string)
      modifies this
      ensures coffees == Removed(old(coffees), id)
      ensures !HasId(coffees, id)
      ensures !HasId(old(coffees), id) ==> coffees == old(coffees)
    {
      if !HasId(coffees, id) {
        RemovedAbsent(coffees, id);
      }
      coffees := Removed(coffees, id);
    }
  }

  /** A client of the store: create a record under an unused id, read it back by that
      id, then delete it and find nothing. */
  method CreateReadDelete(store: RestApiDemoController, x: string, name: string)
    requires !HasId(store.coffees, x)
    modifies store
  {
    var c := new Coffee(x, name);
    var posted := store.PostCoffee(c);
    LookupAfterPost(old(store.coffees), c);
    var found := store.GetCoffeeById(x);
    assert found == Some(c) && found.value.name == name;
    store.DeleteCoffee(x);
    found := store.GetCoffeeById(x);
    assert found == None;
  }
}
