/** The SET, GET and DEL commands: which are carried out, which are refused or redirected, and
    how they act on the shared store. */
module Server {
  import opened Strings
  import opened LwwStore
  import opened HashRing
  import opened Cluster
  import opened Gossip
  import Resp

  datatype Reply =
    | Done
    | Found(value: Str)
    | Missing
    | Deleted(n: int)
    | WrongArity
    | InvalidKey
    | InvalidValue
    | MovedTo(address: Str)
    | QuorumFailed

  /** A command is refused with a reply, or carried out for a key and value. */
  datatype Admission = Refuse(reply: Reply) | Run(key: Str, value: Str)

  datatype DelAdmission = RefuseDel(reply: Reply) | RunDel(keys: seq<Str>)

  /** What the network does to one quorum write. */
  datatype Net = Net(request: nat, failed: set<NodeId>, arrivals: seq<Ack>)

  /** `handleKeyCommand`: the redirect is decided before the value is looked at. */
  function Admit(hash: Str -> Uint64, node: Node, me: NodeId, arity: int, args: seq<Resp.Value>): Admission {
    if |args| != arity || arity < 1 then Refuse(WrongArity)
    else if !args[0].Bulk? then Refuse(InvalidKey)
    else if Moved(hash, node, me, args[0].data) then
      Refuse(MovedTo(Owner(node.ring.entries, hash(args[0].data)).address))
    else if arity == 2 && !args[1].Bulk? then Refuse(InvalidValue)
    else Run(args[0].data, if arity == 2 then args[1].data else [])
  }

  function KeysOf(args: seq<Resp.Value>): Option<seq<Str>> {
    if args == [] then Some([])
    else
      match KeysOf(args[..|args| - 1])
      case None => None
      case Some(keys) => if args[|args| - 1].Bulk? then Some(keys + [args[|args| - 1].data]) else None
  }

  /** The address of the first key, in order, that another node owns. */
  function FirstMoved(hash: Str -> Uint64, node: Node, me: NodeId, keys: seq<Str>): Option<Str> {
    if keys == [] then None
    else if Moved(hash, node, me, keys[0]) then Some(Owner(node.ring.entries, hash(keys[0])).address)
    else FirstMoved(hash, node, me, keys[1..])
  }

  function AdmitDel(hash: Str -> Uint64, node: Node, me: NodeId, args: seq<Resp.Value>): DelAdmission {
    if |args| < 1 then RefuseDel(WrongArity)
    else
      match KeysOf(args)
      case None => RefuseDel(InvalidKey)
      case Some(keys) =>
        match FirstMoved(hash, node, me, keys)
        case Some(address) => RefuseDel(MovedTo(address))
        case None => RunDel(keys)
  }

  lemma {:induction false} KeysOfExact(args: seq<Resp.Value>)
    ensures KeysOf(args).Some? <==> forall i :: 0 <= i < |args| ==> args[i].Bulk?
    ensures KeysOf(args).Some? ==> |KeysOf(args).value| == |args|
    ensures KeysOf(args).Some? ==> forall i :: 0 <= i < |args| ==> KeysOf(args).value[i] == args[i].data
  {
    if args != [] {
      KeysOfExact(args[..|args| - 1]);
    }
  }

  lemma {:induction false} FirstMovedNone(hash: Str -> Uint64, node: Node, me: NodeId, keys: seq<Str>)
    ensures FirstMoved(hash, node, me, keys).None? <==> forall k :: k in keys ==> !Moved(hash, node, me, k)
  {
    if keys != [] {
      FirstMovedNone(hash, node, me, keys[1..]);
      assert keys == [keys[0]] + keys[1..];
    }
  }

  /** DEL is carried out exactly when it has arguments, all of them strings, and this node would
      redirect none of the keys: no key of a mixed request is deleted. */
  lemma DelRunsIff(hash: Str -> Uint64, node: Node, me: NodeId, args: seq<Resp.Value>, keys: seq<Str>)
    ensures AdmitDel(hash, node, me, args) == RunDel(keys) <==>
            && |args| == |keys| > 0
            && (forall i :: 0 <= i < |args| ==> args[i].Bulk? && args[i].data == keys[i])
            && (forall k :: k in keys ==> !Moved(hash, node, me, k))
  {
    KeysOfExact(args);
    if KeysOf(args).Some? {
      var found := KeysOf(args).value;
      FirstMovedNone(hash, node, me, found);
      FirstMovedNone(hash, node, me, keys);
      if |args| == |keys| && forall i :: 0 <= i < |args| ==> args[i].data == keys[i] {
        assert found == keys;
      }
    }
  }

  /** After a local write the quorum write's own local application changes nothing. */
  lemma ReapplyIsIdle(s: State, key: Str, value: Str, origin: Str)
    ensures var (t, e) := SetFrom(s, key, value, origin);
            Merge(t, Keyed(key, e)) == t
  {
    var (t, e) := SetFrom(s, key, value, origin);
    NewerTrichotomy(e, e);
  }

  lemma MergeIdle(s: State, key: Str, e: Entry)
    requires key in s.tree && s.tree[key] == e
    ensures Merge(s, Keyed(key, e)) == s
  {
    NewerTrichotomy(e, e);
  }

  /** A standalone server has no gossip handler; of `gossip` it then uses the id, the store and
      the ring, which it shares with the handler otherwise. */
  class Server {
    const gossip: Handler
    const standalone: bool
    var writeConcern: int

    constructor (gossip: Handler, standalone: bool, writeConcern: int)
      ensures this.gossip == gossip && this.standalone == standalone && this.writeConcern == writeConcern
    {
      this.gossip, this.standalone, this.writeConcern := gossip, standalone, writeConcern;
    }

    function Concern(): int
      reads this
    {
      if writeConcern <= 0 then 1 else writeConcern
    }

    /** No quorum write is needed, or the one for this key succeeds under the given behaviour of the
        network. */
    ghost predicate Acknowledged(key: Str, net: Net)
      requires gossip.Valid()
      reads this, gossip, gossip.store, gossip.ring, gossip.ring.buf
    {
      var remote := Remotes(gossip.ring.hash, gossip.ring.Entries(), gossip.rf, gossip.id, key);
      standalone || QuorumMet(remote, Concern(), net.failed, net.arrivals)
    }

    method AdmitKey(arity: int, args: seq<Resp.Value>) returns (a: Admission)
      requires gossip.Valid() && (arity == 1 || arity == 2)
      ensures a == Admit(gossip.ring.hash, gossip.View(), gossip.id, arity, args)
    {
      if |args| != arity {
        return Refuse(WrongArity);
      }
      if !args[0].Bulk? {
        return Refuse(InvalidKey);
      }
      var key := args[0].data;
      var owner, address := gossip.ring.GetNode(key);
      if owner != [] && owner != gossip.id {
        return Refuse(MovedTo(address));
      }
      if arity == 2 {
        if !args[1].Bulk? {
          return Refuse(InvalidValue);
        }
        return Run(key, args[1].data);
      }
      return Run(key, []);
    }

    method Get(args: seq<Resp.Value>) returns (reply: Reply)
      requires gossip.Valid()
      ensures match Admit(gossip.ring.hash, gossip.View(), gossip.id, 1, args)
              case Refuse(r) => reply == r
              case Run(key, _) =>
                reply == match LwwStore.Get(gossip.store.State(), key)
                         case None => Missing
                         case Some((value, _)) => Found(value)
    {
      var a := AdmitKey(1, args);
      if a.Refuse? {
        return a.reply;
      }
      var value, _, ok := gossip.store.Get(a.key);
      if !ok {
        return Missing;
      }
      return Found(value);
    }

    /** SET acts on the node as the protocol's client step and is acknowledged exactly when the
        quorum write that follows succeeds; a refused command changes nothing. */
    method Set(args: seq<Resp.Value>, net: Net) returns (reply: Reply)
      requires gossip.Valid() && net.request !in gossip.pendingReqs
      modifies gossip, gossip.store
      ensures gossip.Valid()
      ensures match Admit(gossip.ring.hash, old(gossip.View()), gossip.id, 2, args)
              case Refuse(r) => reply == r && gossip.View() == old(gossip.View())
              case Run(key, value) =>
                && gossip.View() == SetEffect(old(gossip.View()), gossip.id, key, value).node
                && reply == (if Acknowledged(key, net) then Done else QuorumFailed)
    {
      var a := AdmitKey(2, args);
      if a.Refuse? {
        return a.reply;
      }
      ReapplyIsIdle(gossip.store.State(), a.key, a.value, gossip.id);
      var entry := gossip.store.SetFrom(a.key, a.value, gossip.id);
      if standalone {
        return Done;
      }
      var r, _ := gossip.ReplicateWithQuorum(a.key, entry, Concern(), net.request, net.failed, net.arrivals);
      if !r.Replicated? {
        return QuorumFailed;
      }
      return Done;
    }

    method AdmitKeys(args: seq<Resp.Value>) returns (a: DelAdmission)
      requires gossip.Valid()
      ensures a == AdmitDel(gossip.ring.hash, gossip.View(), gossip.id, args)
    {
      if |args| < 1 {
        return RefuseDel(WrongArity);
      }
      var keys: seq<Str> := [];
      KeysOfExact(args);
      for i := 0 to |args|
        invariant |keys| == i && forall j :: 0 <= j < i ==> args[j].Bulk? && keys[j] == args[j].data
      {
        if !args[i].Bulk? {
          return RefuseDel(InvalidKey);
        }
        keys := keys + [args[i].data];
      }
      assert keys == KeysOf(args).value;
      for i := 0 to |keys|
        invariant FirstMoved(gossip.ring.hash, gossip.View(), gossip.id, keys[i..]) ==
                  FirstMoved(gossip.ring.hash, gossip.View(), gossip.id, keys)
      {
        assert keys[i..][1..] == keys[i + 1..];
        var owner, address := gossip.ring.GetNode(keys[i]);
        if owner != [] && owner != gossip.id {
          return RefuseDel(MovedTo(address));
        }
      }
      return RunDel(keys);
    }

    /** Replicates tombstones that the store already holds, in any order. */
    method ReplicateAll(tombstones: map<Str, Entry>, nets: map<Str, Net>) returns (ok: bool)
      requires gossip.Valid() && !standalone
      requires forall k :: k in nets ==> nets[k].request !in gossip.pendingReqs
      requires forall k :: k in tombstones ==>
                 k in nets && k in gossip.store.tree && gossip.store.tree[k] == tombstones[k]
      modifies gossip, gossip.store
      ensures gossip.Valid() && gossip.View() == old(gossip.View())
      ensures ok <==> forall k :: k in tombstones ==> Acknowledged(k, nets[k])
    {
      var rest := tombstones.Keys;
      while rest != {}
        invariant rest <= tombstones.Keys
        invariant gossip.Valid() && gossip.View() == old(gossip.View())
        invariant forall k :: k in tombstones.Keys - rest ==> Acknowledged(k, nets[k])
      {
        var key :| key in rest;
        rest := rest - {key};
        MergeIdle(gossip.store.State(), key, tombstones[key]);
        var net := nets[key];
        var r, _ := gossip.ReplicateWithQuorum(key, tombstones[key], Concern(), net.request, net.failed, net.arrivals);
        if !r.Replicated? {
          return false;
        }
      }
      return true;
    }

    /** DEL tombstones all its keys at once and then replicates the tombstones one by one, in any
        order, giving up at the first quorum that fails. */
    method Del(args: seq<Resp.Value>, nets: map<Str, Net>) returns (reply: Reply)
      requires gossip.Valid()
      requires forall k :: k in nets ==> nets[k].request !in gossip.pendingReqs
      requires AdmitDel(gossip.ring.hash, gossip.View(), gossip.id, args).RunDel? ==>
                 forall k :: k in AdmitDel(gossip.ring.hash, gossip.View(), gossip.id, args).keys ==> k in nets
      modifies gossip, gossip.store
      ensures gossip.Valid()
      ensures match AdmitDel(gossip.ring.hash, old(gossip.View()), gossip.id, args)
              case RefuseDel(r) => reply == r && gossip.View() == old(gossip.View())
              case RunDel(keys) =>
                && gossip.View() == DelEffect(old(gossip.View()), gossip.id, keys).node
                && reply == (if forall k :: k in keys ==> Acknowledged(k, nets[k])
                             then Deleted(LwwStore.Del(old(gossip.store.State()), gossip.id, keys).n) else QuorumFailed)
    {
      var a := AdmitKeys(args);
      if a.RefuseDel? {
        return a.reply;
      }
      ghost var before := gossip.store.State();
      DelDeletes(before, gossip.id, a.keys);
      var n, tombstones := gossip.store.Del(gossip.id, a.keys);
      if standalone {
        return Deleted(n);
      }
      var ok := ReplicateAll(tombstones, nets);
      if !ok {
        return QuorumFailed;
      }
      return Deleted(n);
    }
  }
}
