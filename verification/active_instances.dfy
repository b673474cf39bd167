/**
 * The set of ids of running instances that the handler builds from the
 * DescribeInstances answer (filtered on the state "running" by the call
 * itself). The handler fills the set and never reads it afterwards.
 */
module ActiveInstances {
  import opened Ec2

  /** Every instance id that appears in some reservation, each once. */
  function InstanceIds(reservations: seq<Reservation>): (ids: set<string>)
  {
    set r, inst | r in reservations && inst in r.instances :: inst.instanceId
  }

  /** The ids of a list of instances, each once. */
  function IdsOf(instances: seq<Instance>): (ids: set<string>)
  {
    set inst | inst in instances :: inst.instanceId
  }

  /** The number of instance records across all reservations, duplicates included. */
  function InstanceCount(reservations: seq<Reservation>): (n: nat)
  {
    if reservations == [] then 0
    else InstanceCount(reservations[..|reservations| - 1]) + |reservations[|reservations| - 1].instances|
  }

  lemma InstanceIdsSnoc(reservations: seq<Reservation>, r: Reservation)
    ensures InstanceIds(reservations + [r]) == InstanceIds(reservations) + IdsOf(r.instances)
  {
    var all := reservations + [r];
    forall id | id in InstanceIds(all)
      ensures id in InstanceIds(reservations) + IdsOf(r.instances)
    {
      var r', inst :| r' in all && inst in r'.instances && inst.instanceId == id;
      if r' != r {
        assert r' in reservations;
      }
    }
    forall id | id in InstanceIds(reservations) + IdsOf(r.instances)
      ensures id in InstanceIds(all)
    {
      if id in IdsOf(r.instances) {
        var inst :| inst in r.instances && inst.instanceId == id;
        assert r in all;
      } else {
        var r', inst :| r' in reservations && inst in r'.instances && inst.instanceId == id;
        assert r' in all;
      }
    }
  }

  lemma IdsOfSnoc(instances: seq<Instance>, inst: Instance)
    ensures IdsOf(instances + [inst]) == IdsOf(instances) + {inst.instanceId}
  {
    var all := instances + [inst];
    forall id | id in IdsOf(all)
      ensures id in IdsOf(instances) + {inst.instanceId}
    {
      var i :| i in all && i.instanceId == id;
      if i != inst {
        assert i in instances;
      }
    }
    forall id | id in IdsOf(instances) + {inst.instanceId}
      ensures id in IdsOf(all)
    {
      if id == inst.instanceId {
        assert inst in all;
      } else {
        var i :| i in instances && i.instanceId == id;
        assert i in all;
      }
    }
  }

  /**
   * Builds the running-instance set the way the handler does, adding each
   * instance id of each reservation in turn; the result holds exactly the
   * instance ids of the answer.
   */
  method BuildActiveSet(reservations: seq<Reservation>) returns (active: set<string>)
    ensures active == InstanceIds(reservations)
    ensures forall r, inst :: r in reservations && inst in r.instances ==> inst.instanceId in active
  {
    active := {};
    for i := 0 to |reservations|
      invariant active == InstanceIds(reservations[..i])
    {
      var reservation := reservations[i];
      for j := 0 to |reservation.instances|
        invariant active == InstanceIds(reservations[..i]) + IdsOf(reservation.instances[..j])
      {
        IdsOfSnoc(reservation.instances[..j], reservation.instances[j]);
        assert reservation.instances[..j + 1] == reservation.instances[..j] + [reservation.instances[j]];
        active := active + {reservation.instances[j].instanceId};
      }
      assert reservation.instances[..|reservation.instances|] == reservation.instances;
      assert reservations[..i + 1] == reservations[..i] + [reservation];
      InstanceIdsSnoc(reservations[..i], reservation);
    }
    assert reservations[..|reservations|] == reservations;
  }

  /** Collapsing duplicates: the set never has more ids than there are instance records. */
  lemma {:induction false} ActiveSetNoLargerThanInstances(reservations: seq<Reservation>)
    ensures |InstanceIds(reservations)| <= InstanceCount(reservations)
  {
    if reservations != [] {
      var init, last := reservations[..|reservations| - 1], reservations[|reservations| - 1];
      assert reservations == init + [last];
      InstanceIdsSnoc(init, last);
      ActiveSetNoLargerThanInstances(init);
      IdsOfNoLargerThanInstances(last.instances);
    }
  }

  lemma {:induction false} IdsOfNoLargerThanInstances(instances: seq<Instance>)
    ensures |IdsOf(instances)| <= |instances|
  {
    if instances != [] {
      var init, last := instances[..|instances| - 1], instances[|instances| - 1];
      assert instances == init + [last];
      IdsOfSnoc(init, last);
      IdsOfNoLargerThanInstances(init);
    }
  }
}
