/**
 Configuration reload in main: each virtual host's configuration carries a usage
 count; a reload moves configurations in use to an attic, where they stay until
 nobody uses them (src/config.c, src/main-sec-mod-cmd.c, src/main-proc.c).

 A configuration and its usage count are one object here, known by a number. The
 attic lists of the virtual hosts are one set.
 */
module ConfigAttic {
  import opened Wrappers

  /** The workers that hold a configuration. */
  function Users(procs: map<nat, Option<nat>>, id: nat): (s: set<nat>) {
    set p | p in procs && procs[p] == Some(id)
  }

  /** Every configuration counts exactly its users, and what a worker holds exists. */
  ghost predicate Counted(usage: map<nat, nat>, procs: map<nat, Option<nat>>) {
    && (forall id :: id in usage ==> usage[id] == |Users(procs, id)|)
    && (forall p :: p in procs && procs[p].Some? ==> procs[p].value in usage)
  }

  /** A configuration that nobody counts on can be freed. */
  lemma FreeKeepsCounted(usage: map<nat, nat>, procs: map<nat, Option<nat>>, id: nat)
    requires Counted(usage, procs) && id in usage && usage[id] == 0
    ensures Counted(usage - {id}, procs)
  {
    assert Users(procs, id) == {};
    forall p | p in procs && procs[p].Some?
      ensures procs[p].value in usage - {id}
    {
      assert procs[p].value == id ==> p in Users(procs, id);
    }
  }

  lemma HoldKeepsCounted(usage: map<nat, nat>, procs: map<nat, Option<nat>>, p: nat, id: nat)
    requires Counted(usage, procs) && id in usage && p in procs && procs[p].None?
    ensures Counted(usage[id := usage[id] + 1], procs[p := Some(id)])
  {
    hide Users;
    forall x | x in usage
      ensures usage[id := usage[id] + 1][x] == |Users(procs[p := Some(id)], x)|
    {
      UsersAfterHold(procs, p, id, x);
    }
  }

  lemma UsersAfterHold(procs: map<nat, Option<nat>>, p: nat, id: nat, x: nat)
    requires p in procs && procs[p].None?
    ensures Users(procs[p := Some(id)], x) == Users(procs, x) + (if x == id then {p} else {}) && p !in Users(procs, x)
  {
  }

  lemma UsersAfterRelease(procs: map<nat, Option<nat>>, p: nat, x: nat)
    requires p in procs
    ensures Users(procs - {p}, x) == Users(procs, x) - {p}
    ensures p in Users(procs, x) <==> procs[p] == Some(x)
  {
  }

  lemma ReleaseKeepsCounted(usage: map<nat, nat>, procs: map<nat, Option<nat>>, p: nat)
    requires Counted(usage, procs) && p in procs
    ensures procs[p].None? ==> Counted(usage, procs - {p})
    ensures procs[p].Some? ==>
              usage[procs[p].value] > 0 && Counted(usage[procs[p].value := usage[procs[p].value] - 1], procs - {p})
  {
    hide Users;
    forall x | x in usage
      ensures |Users(procs - {p}, x)| == |Users(procs, x)| - (if procs[p] == Some(x) then 1 else 0)
    {
      UsersAfterRelease(procs, p, x);
    }
  }

  /** The configuration of one of the first n virtual hosts. */
  predicate AmongFirst(current: seq<Option<nat>>, n: nat, id: nat) {
    exists i :: 0 <= i < |current| && i < n && current[i] == Some(id)
  }

  class Configs {
    /** The configuration of each virtual host; none while a reload is under way. */
    var current: seq<Option<nat>>
    var attic: set<nat>
    var usage: map<nat, nat>
    var procs: map<nat, Option<nat>>
    var next: nat

    constructor ()
      ensures Valid() && current == [] && procs == map[]
    {
      current, attic, usage, procs, next := [], {}, map[], map[], 0;
    }

    /** The configurations that exist are the current and the archived ones, each in
        one place, and each counts exactly the workers that hold it. */
    ghost predicate Valid()
      reads this
    {
      && Counted(usage, procs)
      && (forall id :: id in usage ==> id < next && (id in attic || Some(id) in current))
      && attic <= usage.Keys
      && (forall i :: 0 <= i < |current| && current[i].Some? ==> current[i].value in usage && current[i].value !in attic)
      && (forall i, j :: 0 <= i < j < |current| && current[i].Some? ==> current[i] != current[j])
    }

    /** No reload is under way. */
    ghost predicate Settled()
      reads this
    {
      None !in current
    }

    /** cfg_new for virtual host v. */
    method CfgNew(v: nat)
      requires Valid() && v < |current| && current[v].None?
      modifies this
      ensures Valid() && procs == old(procs) && attic == old(attic)
      ensures next == old(next) + 1 && current == old(current)[v := Some(old(next))]
      ensures usage == old(usage)[old(next) := 0]
    {
      assert Users(procs, next) == {};
      forall id | id in usage
        ensures id in attic || Some(id) in current[v := Some(next)]
      {
        if Some(id) in current {
          var i :| 0 <= i < |current| && current[i] == Some(id);
          assert current[v := Some(next)][i] == Some(id);
        }
      }
      assert current[v := Some(next)][v] == Some(next);
      current := current[v := Some(next)];
      usage := usage[next := 0];
      next := next + 1;
    }

    /** One turn of archive_cfg: the configuration of v goes to the attic if it is
        used and is freed if it is not. */
    method ArchiveOne(v: nat)
      requires Valid() && v < |current| && current[v].Some?
      modifies this
      ensures Valid() && procs == old(procs) && next == old(next) && current == old(current)[v := None]
      ensures var id := old(current)[v].value;
              if old(usage)[id] == 0 then usage == old(usage) - {id} && attic == old(attic)
              else usage == old(usage) && attic == old(attic) + {id}
    {
      var id := current[v].value;
      forall x | x in usage && x != id
        ensures x in attic || Some(x) in current[v := None]
      {
        if Some(x) in current {
          var i :| 0 <= i < |current| && current[i] == Some(x);
          assert current[v := None][i] == Some(x);
        }
      }
      if usage[id] == 0 {
        FreeKeepsCounted(usage, procs, id);
        usage := usage - {id};
      } else {
        attic := attic + {id};
      }
      current := current[v := None];
    }

    /** archive_cfg: stops early when it runs out of memory, at virtual host `limit`. */
    method Archive(limit: nat)
      requires Valid() && Settled()
      modifies this
      ensures Valid() && procs == old(procs) && |current| == |old(current)|
      ensures forall i :: 0 <= i < |current| ==> current[i] == if i < limit then None else old(current)[i]
      ensures next == old(next)
      ensures forall id :: id in attic <==>
        id in old(attic) || (id in old(usage) && old(usage)[id] > 0 && AmongFirst(old(current), limit, id))
    {
      var v := 0;
      while v < |current| && v < limit
        invariant Valid() && procs == old(procs) && |current| == |old(current)| && 0 <= v <= |current| && v <= limit && next == old(next)
        invariant forall i :: v <= i < |current| ==>
          current[i].Some? && current[i].value in old(usage) && usage[current[i].value] == old(usage)[current[i].value]
        invariant forall id :: id in attic <==>
          id in old(attic) || (id in old(usage) && old(usage)[id] > 0 && AmongFirst(old(current), v, id))
        invariant forall i :: 0 <= i < |current| ==> current[i] == if i < v then None else old(current)[i]
      {
        ArchiveOne(v);
        v := v + 1;
      }
    }

    /** vhost_add: a virtual host that the file has and memory does not. */
    method VhostAdd()
      requires Valid()
      modifies this
      ensures Valid() && procs == old(procs) && attic == old(attic)
      ensures next == old(next) + 1 && current == old(current) + [Some(old(next))] && usage == old(usage)[old(next) := 0]
    {
      assert forall id :: Some(id) in current ==> Some(id) in current + [None];
      current := current + [None];
      CfgNew(|current| - 1);
    }

    /** The second half of a reload: a new configuration for each virtual host that
        has none. */
    method Renew()
      requires Valid()
      modifies this
      ensures Valid() && Settled() && procs == old(procs) && |current| == |old(current)| && attic == old(attic)
      ensures old(next) <= next
      ensures forall i :: 0 <= i < |current| ==>
                if old(current)[i].None? then current[i].value >= old(next) else current[i] == old(current)[i]
      ensures forall id :: id in old(usage) ==> id in usage && usage[id] == old(usage)[id]
    {
      for v := 0 to |current|
        invariant Valid() && procs == old(procs) && |current| == |old(current)| && attic == old(attic) && old(next) <= next
        invariant forall i :: v <= i < |current| ==> current[i] == old(current)[i]
        invariant forall i :: 0 <= i < v ==> current[i].Some?
        invariant forall i :: 0 <= i < v ==>
                    if old(current)[i].None? then current[i].value >= old(next) else current[i] == old(current)[i]
        invariant forall id :: id in old(usage) ==> id in usage && usage[id] == old(usage)[id]
      {
        if current[v].None? { CfgNew(v); }
      }
    }

    /** reload_cfg_file in main: archive, renew, and the `more` virtual hosts that the
        file adds. Every virtual host that was archived has a configuration never
        seen before, and everything a worker holds is still there. */
    method Reload(limit: nat, more: nat)
      requires Valid() && Settled()
      modifies this
      ensures Valid() && Settled() && procs == old(procs) && |current| == |old(current)| + more
      ensures forall i :: 0 <= i < |old(current)| ==>
                if i < limit then current[i].value !in old(usage) else current[i] == old(current)[i]
      ensures forall p :: p in procs && procs[p].Some? ==> procs[p].value in usage
    {
      Archive(limit);
      Renew();
      ghost var n := |current|;
      ghost var renewed := current;
      for k := 0 to more
        invariant Valid() && Settled() && procs == old(procs) && |current| == n + k && current[..n] == renewed
      {
        VhostAdd();
      }
      assert forall i :: 0 <= i < n ==> current[i] == current[..n][i];
    }

    /** clear_old_configs: frees the archived configurations that nobody uses. */
    method ClearOld()
      requires Valid()
      modifies this
      ensures Valid() && procs == old(procs) && current == old(current)
      ensures attic == set id | id in old(attic) && old(usage)[id] > 0
      ensures forall id :: id in old(usage) ==> (id in usage <==> id !in old(attic) || old(usage)[id] > 0)
    {
      hide Users;
      var todo := attic;
      while todo != {}
        invariant Valid() && procs == old(procs) && current == old(current)
        invariant todo <= attic <= old(attic) && usage.Keys <= old(usage).Keys
        invariant forall id :: id in usage ==> usage[id] == old(usage)[id]
        invariant forall id :: id in old(usage) ==> (id in usage <==> id !in old(attic) || id in todo || old(usage)[id] > 0)
        invariant attic == set id | id in old(attic) && (id in todo || old(usage)[id] > 0)
        decreases todo
      {
        var id :| id in todo;
        todo := todo - {id};
        if usage[id] == 0 {
          FreeKeepsCounted(usage, procs, id);
          attic := attic - {id};
          usage := usage - {id};
        }
      }
    }

    /** new_proc */
    method Connect(p: nat)
      requires Valid() && p !in procs
      modifies this
      ensures Valid() && procs == old(procs)[p := None] && usage == old(usage) && current == old(current) && attic == old(attic)
    {
      assert forall id :: id in usage ==> Users(procs[p := None], id) == Users(procs, id);
      procs := procs[p := None];
    }

    /** The end of apply_default_config: the worker holds the configuration of its
        virtual host from now on. */
    method Hold(p: nat, v: nat)
      requires Valid() && Settled() && p in procs && procs[p].None? && v < |current|
      modifies this
      ensures Valid() && Settled() && current == old(current) && attic == old(attic)
      ensures procs == old(procs)[p := current[v]]
      ensures usage == old(usage)[current[v].value := old(usage)[current[v].value] + 1]
    {
      assert current[v] in current;
      HoldKeepsCounted(usage, procs, p, current[v].value);
      procs := procs[p := current[v]];
      usage := usage[current[v].value := usage[current[v].value] + 1];
    }

    /** The end of remove_proc. The code's test that the count is positive is never
        false. */
    method RemoveProc(p: nat)
      requires Valid() && p in procs
      modifies this
      ensures Valid() && procs == old(procs) - {p} && current == old(current) && attic == old(attic)
      ensures old(procs)[p].None? ==> usage == old(usage)
      ensures old(procs)[p].Some? ==>
                var id := old(procs)[p].value;
                id in old(usage) && old(usage)[id] > 0 && usage == old(usage)[id := old(usage)[id] - 1]
    {
      ReleaseKeepsCounted(usage, procs, p);
      if procs[p].Some? && usage[procs[p].value] > 0 {
        usage := usage[procs[p].value := usage[procs[p].value] - 1];
      }
      procs := procs - {p};
    }
  }
}
