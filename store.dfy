/** The volatile backend of the storage contract: trekkings kept in a map from their
    name, in process memory. Every method is one atomic step on the map; the mutex that
    makes it so is not modelled. A trekking goes in and comes out as a copy, and callers
    write an edited copy back with UpdateTrekking. */
module Store {
  import opened Errors
  import opened Lootjestrekken

  class InMemoryStore {
    var trekkingen: map<string, Trekking>

    /** NewInMemoryStore: a store with nothing in it. */
    constructor ()
      ensures trekkingen == map[]
    {
      trekkingen := map[];
    }

    /** Writes `trekking` under its own name, whether or not that name was taken, and
      never fails; every other entry stays as it was. */
    method UpdateTrekking(trekking: Trekking) returns (err: Option<Error>)
      modifies this
      ensures err == None
      ensures trekkingen == old(trekkingen)[trekking.name := trekking]
    {
      trekkingen := trekkingen[trekking.name := trekking];
      err := None;
    }

    /** The trekking stored under `name`, or the zero trekking and an error. */
    method GetTrekking(name: string) returns (trekking: Trekking, err: Option<Error>)
      ensures name in trekkingen ==> trekking == trekkingen[name] && err == None
      ensures name !in trekkingen ==> trekking == ZeroTrekking() && err == Some(TrekkingNameNotFound)
    {
      if name !in trekkingen {
        return ZeroTrekking(), Some(TrekkingNameNotFound);
      }
      trekking := trekkingen[name];
      err := None;
    }

    /** Every stored name exactly once, in an unspecified order. */
    method GetTrekkingNames() returns (keys: seq<string>, err: Option<Error>)
      ensures err == None
      ensures |keys| == |trekkingen|
      ensures forall k :: k in keys <==> k in trekkingen
      ensures Distinct(keys)
    {
      keys := [];
      var rest := trekkingen.Keys;
      while rest != {}
        invariant rest <= trekkingen.Keys
        invariant forall k :: k in keys <==> k in trekkingen && k !in rest
        invariant Distinct(keys)
        invariant |keys| + |rest| == |trekkingen|
        decreases |rest|
      {
        var k :| k in rest;
        keys := keys + [k];
        rest := rest - {k};
      }
      err := None;
    }

    /** One GetInfo line per stored trekking. `order` is the order, unspecified, in which
      the map was visited: every stored name exactly once. */
    method GetTrekkingInfos() returns (infos: seq<string>, err: Option<Error>, ghost order: seq<string>)
      ensures err == None
      ensures |infos| == |trekkingen|
      ensures |order| == |infos| && Distinct(order)
      ensures forall k :: k in order <==> k in trekkingen
      ensures forall m :: 0 <= m < |order| ==> order[m] in trekkingen && infos[m] == GetInfo(trekkingen[order[m]])
    {
      infos, order := [], [];
      var rest := trekkingen.Keys;
      while rest != {}
        invariant rest <= trekkingen.Keys
        invariant |order| == |infos|
        invariant forall k :: k in order <==> k in trekkingen && k !in rest
        invariant Distinct(order)
        invariant |order| + |rest| == |trekkingen|
        invariant forall m :: 0 <= m < |order| ==> order[m] in trekkingen && infos[m] == GetInfo(trekkingen[order[m]])
        decreases |rest|
      {
        var k :| k in rest;
        infos := infos + [GetInfo(trekkingen[k])];
        order := order + [k];
        rest := rest - {k};
      }
      err := None;
    }

    /** Registers `trekking` under `name`, renamed to `name`, unless the name is taken:
      then it reports ErrExists and changes nothing. */
    method AddTrekking(name: string, trekking: Trekking) returns (err: Option<Error>)
      modifies this
      ensures name in old(trekkingen) ==> err == Some(ErrExists) && trekkingen == old(trekkingen)
      ensures name !in old(trekkingen) ==> err == None && trekkingen == old(trekkingen)[name := trekking.(name := name)]
    {
      var named := trekking.(name := name);
      if name in trekkingen {
        return Some(ErrExists);
      }
      trekkingen := trekkingen[name := named];
      err := None;
    }
  }

  /** A second registration under a name is refused, whatever it carries, and the
      first one stays; a lookup then returns the first one. */
  method AddTwiceThenGet(s: InMemoryStore, name: string, first: Trekking, second: Trekking)
    returns (e1: Option<Error>, e2: Option<Error>, got: Trekking, e3: Option<Error>)
    requires name !in s.trekkingen
    modifies s
    ensures e1 == None && e2 == Some(ErrExists) && e3 == None
    ensures got == first.(name := name)
    ensures s.trekkingen == old(s.trekkingen)[name := first.(name := name)]
  {
    e1 := s.AddTrekking(name, first);
    e2 := s.AddTrekking(name, second);
    got, e3 := s.GetTrekking(name);
  }
}
