/** The `/hello` endpoint of the application class: a greeting built around a name. */
module Greeting {
  import opened Wrappers

  /** The name used when the request carries no `name` parameter. */
  const DefaultName: string := "World"

  /** The greeting for `name`: it opens with "Hello ", closes with '!', and the
      text in between is exactly `name`. */
  function Hello(name: string): (r: string)
    ensures |r| == |name| + 7
    ensures r[..6] == "Hello " && r[|r| - 1] == '!'
    ensures r[6..|r| - 1] == name
  {
    "Hello " + name + "!"
  }

  /** The greeting for a request whose `name` parameter may be absent. The default
      stands in both for a missing parameter and for one given with an empty value. */
  function HelloRequest(name: Option<string>): (r: string)
    ensures name.None? || name.value == "" ==> r == "Hello World!"
    ensures name.Some? && name.value != "" ==> r == Hello(name.value)
  {
    Hello(if name.None? || name.value == "" then DefaultName else name.value)
  }

  /** Different names never give the same greeting, so the greeting determines the name. */
  lemma HelloInjective(a: string, b: string)
    ensures Hello(a) == Hello(b) <==> a == b
  {
  }
}
