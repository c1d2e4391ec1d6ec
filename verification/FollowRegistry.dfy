/** The `docker logs -f` processes of one agent connection, by the desktop's follow id. */
module FollowRegistry {
  import opened Text

  class Follows {
    var children: map<nat, nat>     // follow id to process
    ghost var running: set<nat>     // what this connection has started and not killed
    ghost var started: set<nat>     // everything it ever started

    /** What runs is exactly what is registered, one process per follow id. */
    ghost predicate Valid()
      reads this
    {
      && running == children.Values && running <= started
      && forall a, b | a in children && b in children && children[a] == children[b] :: a == b
    }

    constructor ()
      ensures Valid() && children == map[] && running == {} && started == {}
    {
      children, running, started := map[], {}, {};
    }

    /** Takes a follow out of the registry and kills its process. */
    method Kill(id: nat)
      requires Valid()
      modifies this
      ensures Valid() && children == old(children) - {id} && started == old(started)
      ensures running == old(running) - (if id in old(children) then {old(children)[id]} else {})
    {
      if id in children {
        ghost var process := children[id];
        children := children - {id};
        running := running - {process};
        assert running == children.Values by {
          forall p | p in running
            ensures p in children.Values
          {
            var a :| a in old(children) && old(children)[a] == p;
            assert a in children;
          }
        }
      }
    }

    /** `FollowLogs`: an earlier process of the same id is replaced; a start that fails leaves none. */
    method Follow(id: nat, process: Option<nat>)
      requires Valid() && (process.Some? ==> process.value !in started)
      modifies this
      ensures Valid()
      ensures children == if process.Some? then old(children)[id := process.value] else old(children) - {id}
      ensures id in old(children) ==> old(children)[id] !in running
    {
      Kill(id);
      if process.Some? {
        ghost var before := children;
        children := children[id := process.value];
        running := running + {process.value};
        started := started + {process.value};
        assert running == children.Values by {
          assert children[id] == process.value;
          forall p | p in before.Values
            ensures p in children.Values
          {
            var a :| a in before && before[a] == p;
            assert children[a] == p;
          }
        }
        assert old(children) - {id} == before;
        assert children == old(children)[id := process.value];
      }
    }

    /** The end of the connection: nothing it started is left running. */
    method Close()
      requires Valid()
      modifies this
      ensures Valid() && children == map[] && running == {}
    {
      while children != map[]
        invariant Valid()
        decreases |children|
      {
        var id :| id in children;
        Kill(id);
      }
    }
  }
}
