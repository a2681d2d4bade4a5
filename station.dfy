/** A metro station: a name and a mutable map from neighbouring stations to
    their distance. `equals` and `hashCode` are not overridden, so stations are
    compared and used as map keys by identity; Dafny's class references have
    exactly that semantics. */
module Stations {

  class Station {
    /** Set once by the constructor and never reassigned. */
    const name: string
    /** Neighbouring station to distance; updated in place when the network is built. */
    var connections: map<Station, int>

    /** A new station with the given name and no connections yet. */
    constructor (name: string)
      ensures this.name == name
      ensures connections == map[]
    {
      this.name := name;
      connections := map[];
    }

    /** `toString()`: the station's name, unchanged. */
    function ToString(): (s: string)
      ensures s == name
    {
      name
    }
  }
}
