/** The Coffee entity: an identifier fixed at construction and a name that can be changed. */
module CoffeeRecord {

  class Coffee {
    /** The lookup key; `final` in the source, so it never changes once set. */
    const id: string
    var name: string

    /** A record with a supplied id. The source's one-argument constructor draws the id
        from a random UUID; here every caller supplies it. */
    constructor (id: string, name: string)
      ensures this.id == id && this.name == name
    {
      this.id := id;
      this.name := name;
    }

    /** Replaces the name; the id is constant, so it is the only field that changes. */
    method SetName(name: string)
      modifies this
      ensures this.name == name
    {
      this.name := name;
    }
  }
}
