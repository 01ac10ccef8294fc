# Coffee store: a Dafny model

This project models the in-memory Coffee store of the chapter-1 Spring demo
(`spring_demo_ch1/.../DemoApplication.java`). `RestApiDemoController` keeps one
shared list of `Coffee` records, seeds it with four records, and serves five
operations on it:

- list the whole sequence;
- look a record up by id with a scan that stops at the first match;
- create, which appends the body record;
- update-or-append, which overwrites every position whose id matches and
  appends when nothing matched;
- delete, which removes every record with the id.

The file also has a `/hello` greeting, which is modelled as a one-line function.

## Layout

- `Wrappers.dfy`: `Option`, standing in for `java.util.Optional` ("not found" is `None`).
- `Coffee.dfy`: class `Coffee`. The `id` is a `const`, as the `final` field is in the
  source. The `name` is a `var`. The getters are plain field reads.
- `CoffeeList.dfy`: the list as a value (`seq<Coffee>` of references). It defines
  what each operation does to it: `FirstWithId`, `Replaced`, `Upserted`, `Removed`,
  and `IndexOf` for `List.indexOf`. The lemmas relating the operations are here too.
  These functions read only the constant `id`, so they need no heap frame.
- `Controller.dfy`: class `RestApiDemoController`, whose field `coffees` the
  methods update in place. `GetCoffeeById` and `PutCoffee` keep the source's loops.
  Each method's `ensures` ties the new list to a function of the old one. The file
  ends with a client method, `CreateReadDelete`.
- `Greeting.dfy`: the `/hello` greeting.

Records are class references, so aliasing is kept. `PutCoffee` stores the body
object itself, and a record returned by a lookup is the stored one.

`putCoffee` calls `coffees.indexOf(c)`. `Coffee` does not override `equals`, so this
compares references. The model of `PutCoffee` makes the same call (`IndexOf`) and
proves a fact about it. The index found is either the current loop position, or an
earlier position that already holds the body object. In the second case `set`
changes nothing.

A client might expect more of the store than the code gives. The model states what
the code does:

- A client might expect one Coffee per id. The code does not enforce it:
  `postCoffee` appends whatever it is given. `PostKeepsUniqueIds`,
  `PutKeepsUniqueIds` and `DeleteKeepsUniqueIds` state when uniqueness survives.
- A client might expect an update to keep the path id. The code stores the body
  record as it is, whatever its own id, so `PutCoffee` promises nothing about the id.
  `LookupAfterPut` shows that a lookup of the path id finds the body when the body
  carries that id. `LookupAfterMismatchedPut` shows that the path id can no longer be
  found when the body carries another id.
- A client might expect a lookup after creating `Coffee(x, n)` to give name `n`.
  This holds only when no older record has id `x`; otherwise the older record is
  found (`LookupAfterPost`).

## Model

| member | source | states |
|---|---|---|
| `CoffeeRecord.Coffee.constructor` | spring_demo_ch1/demo/src/main/java/com/example/demo/DemoApplication.java:45-48 | the new record has exactly the given id and name |
| `CoffeeRecord.Coffee.SetName` | spring_demo_ch1/demo/src/main/java/com/example/demo/DemoApplication.java:58-60 | the name becomes the argument; only this record's `name` may change, and the id is a constant (`final`) |
| `RestApiDemo.RestApiDemoController.constructor` | spring_demo_ch1/demo/src/main/java/com/example/demo/DemoApplication.java:67-74 | the store holds exactly four fresh, distinct records, with the supplied ids and the names Cafe Cereze, Cafe Ganador, Cafe Lareno, Cafe Tres Pontas in that order |
| `RestApiDemo.RestApiDemoController.GetCoffees` | spring_demo_ch1/demo/src/main/java/com/example/demo/DemoApplication.java:75-78 | returns the whole list in its current order; changes nothing |
| `RestApiDemo.RestApiDemoController.GetCoffeeById` | spring_demo_ch1/demo/src/main/java/com/example/demo/DemoApplication.java:81-88 | the scan with early return gives `FirstWithId` of the list: `None` exactly when no record has the id, otherwise a stored record with that id; the list is not changed |
| `RestApiDemo.RestApiDemoController.PostCoffee` | spring_demo_ch1/demo/src/main/java/com/example/demo/DemoApplication.java:91-94 | the new list is the old list with the body appended, so earlier elements are untouched and the length grows by one; returns the body |
| `RestApiDemo.RestApiDemoController.PutCoffee` | spring_demo_ch1/demo/src/main/java/com/example/demo/DemoApplication.java:97-107 | on a hit, the length is unchanged, every position whose old record had the id holds the body, and every other position is unchanged; on a miss, the body is appended exactly as `PostCoffee` does; returns the body in both cases |
| `RestApiDemo.RestApiDemoController.DeleteCoffee` | spring_demo_ch1/demo/src/main/java/com/example/demo/DemoApplication.java:110-112 | the new list is `Removed` of the old one: no record has the id afterwards, and the list is unchanged when none had it |
| `CoffeeList.FirstWithId` | spring_demo_ch1/demo/src/main/java/com/example/demo/DemoApplication.java:82-87 | the result is empty exactly when no record has the id; otherwise it is the record at some position k with that id, and no position before k has it |
| `CoffeeList.IndexOf` | spring_demo_ch1/demo/src/main/java/com/example/demo/DemoApplication.java:102 | reference-equality `indexOf`: -1 exactly when the object is absent, otherwise a position holding the object with no earlier occurrence |
| `CoffeeList.Replaced` | spring_demo_ch1/demo/src/main/java/com/example/demo/DemoApplication.java:100-105 | same length; position k holds the body if the old record there had the id, and the old record otherwise |
| `CoffeeList.Upserted` | spring_demo_ch1/demo/src/main/java/com/example/demo/DemoApplication.java:97-107 | on a hit, same length, and each position holds the body if the old record there had the id and the old record otherwise; on a miss, the old list with the body appended |
| `CoffeeList.Removed` | spring_demo_ch1/demo/src/main/java/com/example/demo/DemoApplication.java:111 | no remaining record has the id; every remaining record was in the list; every record with another id is kept; it is never longer |
| `CoffeeList.FirstWithIdAt` | spring_demo_ch1/demo/src/main/java/com/example/demo/DemoApplication.java:82-87 | a record with the id that has no earlier match is the one the scan returns |
| `CoffeeList.FirstWithIdAppend` | spring_demo_ch1/demo/src/main/java/com/example/demo/DemoApplication.java:82-92 | a lookup after an append returns the old match if there was one; otherwise it returns the appended record exactly when that record carries the id |
| `CoffeeList.LookupAfterPost` | spring_demo_ch1/demo/src/main/java/com/example/demo/DemoApplication.java:91-94 | after creating a record, a lookup by its id finds it, unless an older record already had that id, in which case the older record is found |
| `CoffeeList.PostKeepsUniqueIds` | spring_demo_ch1/demo/src/main/java/com/example/demo/DemoApplication.java:91-94 | an append keeps ids unique if and only if the new id is not already in use |
| `CoffeeList.LookupAfterPut` | spring_demo_ch1/demo/src/main/java/com/example/demo/DemoApplication.java:97-106 | when the body's id is the path id, looking that id up after update-or-append finds the body, on a hit and on a miss |
| `CoffeeList.LookupAfterMismatchedPut` | spring_demo_ch1/demo/src/main/java/com/example/demo/DemoApplication.java:97-106 | when the body's id differs from the path id, looking the path id up after update-or-append finds nothing, on a hit and on a miss |
| `CoffeeList.PutKeepsUniqueIds` | spring_demo_ch1/demo/src/main/java/com/example/demo/DemoApplication.java:97-106 | when the body's id is the path id, update-or-append keeps ids unique |
| `CoffeeList.RemovedAppend` | spring_demo_ch1/demo/src/main/java/com/example/demo/DemoApplication.java:111 | removal distributes over concatenation, so the kept records stay in their original relative order |
| `CoffeeList.RemovedAbsent` | spring_demo_ch1/demo/src/main/java/com/example/demo/DemoApplication.java:111 | deleting an id that no record has leaves the list unchanged (a silent no-op) |
| `CoffeeList.RemovedIdempotent` | spring_demo_ch1/demo/src/main/java/com/example/demo/DemoApplication.java:111 | deleting twice gives the same list as deleting once |
| `CoffeeList.LookupAfterDelete` | spring_demo_ch1/demo/src/main/java/com/example/demo/DemoApplication.java:110-112 | after a delete, a lookup of that id is empty, including for ids that never existed |
| `CoffeeList.LookupOtherAfterDelete` | spring_demo_ch1/demo/src/main/java/com/example/demo/DemoApplication.java:111 | a delete does not change the result of a lookup of any other id |
| `CoffeeList.DeleteKeepsUniqueIds` | spring_demo_ch1/demo/src/main/java/com/example/demo/DemoApplication.java:111 | a delete keeps ids unique |
| `Greeting.Hello` | spring_demo_ch1/demo/src/main/java/com/example/demo/DemoApplication.java:36-37 | the greeting is "Hello ", then the name, then "!" |
| `Greeting.HelloRequest` | spring_demo_ch1/demo/src/main/java/com/example/demo/DemoApplication.java:36 | a missing or empty `name` parameter gives "Hello World!", as `defaultValue` does; a non-empty one gives the greeting for that name |
| `Greeting.HelloInjective` | spring_demo_ch1/demo/src/main/java/com/example/demo/DemoApplication.java:37 | two greetings are equal if and only if the names are equal |

## Left out

- `Coffee(String name)`: the one-argument constructor draws its id from
  `UUID.randomUUID()`. Randomness is not modelled. Callers, including the store's
  seeding constructor, supply the id.
- HTTP routing, the mapping annotations, path, query and body binding, and JSON
  serialisation all belong to the framework. The only binding detail kept is the
  `"World"` default of `/hello`, which applies to a missing and to an empty `name`.
- `main` and `SpringApplication.run`: process bootstrap.
- Concurrent access: the shared list is unsynchronised in the source. The model is
  single-threaded, and every operation is one atomic step.
- Null ids and null records: Dafny strings and `Coffee` references are non-null.
  The source would throw on a null id in `equals`.
- `GetCoffees` returns the value of the list. The source returns the live `List`
  object, which a caller could mutate. No caller in the source does.
- `removeIf` is a library call, so `DeleteCoffee` assigns `Removed` of the list. It
  does not run a loop of its own.
- The chapter-2 variant (`spring_demo_ch2/.../DemoApplication.java`) is not part of
  this model. Its store operations are single calls into Spring Data's
  `CrudRepository`, whose code is not part of the source. Its `putCoffee` is
  commented out.
