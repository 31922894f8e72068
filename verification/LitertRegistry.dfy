// litert_module.cpp: the linked registries of native handles, and run()'s tensor
// buffers, which must be closed whatever step raises.
module LitertRegistry {
  import opened Common

  // LitertHandleNode
  class Node {
    const rawHandle: int
    const globalRef: nat
    var next: Node?

    constructor (rawHandle: int, globalRef: nat, next: Node?)
      ensures this.rawHandle == rawHandle && this.globalRef == globalRef && this.next == next
    {
      this.rawHandle, this.globalRef, this.next := rawHandle, globalRef, next;
    }
  }

  // ---- the simple form: a list without repetition ----

  ghost predicate Distinct(s: seq<Node>) {
    forall i, j :: 0 <= i < j < |s| ==> s[i] != s[j]
  }

  // s without the nodes in gone, in the same order.
  ghost function Keep(s: seq<Node>, gone: set<Node>): seq<Node> {
    if s == [] then [] else (if s[0] in gone then [] else [s[0]]) + Keep(s[1..], gone)
  }

  ghost function Nodes(s: seq<Node>): set<Node> {
    set n | n in s
  }

  ghost function Refs(s: seq<Node>): (r: seq<nat>)
    ensures |r| == |s| && forall i :: 0 <= i < |s| ==> r[i] == s[i].globalRef
  {
    seq(|s|, i requires 0 <= i < |s| => s[i].globalRef)
  }

  lemma {:induction false} KeepAll(s: seq<Node>, gone: set<Node>)
    requires forall n :: n in s ==> n !in gone
    ensures Keep(s, gone) == s
  {
    if s != [] {
      assert s[0] in s && forall n :: n in s[1..] ==> n in s;
      KeepAll(s[1..], gone);
    }
  }

  lemma KeepNone(s: seq<Node>)
    ensures Nodes([]) == {} && Keep(s, Nodes([])) == s
  {
    KeepAll(s, {});
  }

  lemma {:induction false} KeepTwice(s: seq<Node>, a: set<Node>, b: set<Node>)
    ensures Keep(Keep(s, a), b) == Keep(s, a + b)
  {
    if s != [] {
      KeepTwice(s[1..], a, b);
      if s[0] !in a {
        assert Keep(s, a) == [s[0]] + Keep(s[1..], a);
        assert Keep(s, a)[1..] == Keep(s[1..], a);
      } else {
        assert Keep(s, a) == Keep(s[1..], a);
      }
    }
  }

  lemma DistinctWithout(s: seq<Node>, k: nat)
    requires Distinct(s) && k < |s|
    ensures Distinct(s[..k] + s[k + 1..])
  {
  }

  lemma KeepEitherOrder(s: seq<Node>, a: set<Node>, b: set<Node>)
    ensures Keep(Keep(s, a), b) == Keep(Keep(s, b), a)
  {
    KeepTwice(s, a, b);
    KeepTwice(s, b, a);
    assert a + b == b + a;
  }

  // Unlinking the node at k.
  lemma {:induction false} KeepOne(s: seq<Node>, k: nat)
    requires Distinct(s) && k < |s|
    ensures Keep(s, {s[k]}) == s[..k] + s[k + 1..]
  {
    if k == 0 {
      KeepAll(s[1..], {s[0]});
    } else {
      KeepOne(s[1..], k - 1);
      assert s[..k] + s[k + 1..] == [s[0]] + (s[1..][..k - 1] + s[1..][k..]);
    }
  }

  // ---- the code ----

  class Registry {
    var head: Node?
    ghost var nodes: seq<Node>   // the nodes linked from head, in order

    ghost predicate Valid()
      reads this, Nodes(nodes)
    {
      && (head == if nodes == [] then null else nodes[0])
      && (forall i {:trigger nodes[i].next} :: 0 <= i < |nodes| ==>
            nodes[i].next == if i + 1 < |nodes| then nodes[i + 1] else null)
      && Distinct(nodes)
    }

    constructor ()
      ensures Valid() && nodes == []
    {
      head, nodes := null, [];
    }

    // registry_add
    method Add(rawHandle: int, globalRef: nat) returns (node: Node)
      requires Valid()
      modifies this
      ensures Valid() && fresh(node) && nodes == [node] + old(nodes)
      ensures node.rawHandle == rawHandle && node.globalRef == globalRef
    {
      node := new Node(rawHandle, globalRef, head);
      head := node;
      nodes := [node] + nodes;
    }

    // *link = node->next, where link is &head or &prev->next.
    method Unlink(prev: Node?, cur: Node, ghost k: nat)
      requires Valid() && k < |nodes| && cur == nodes[k]
      requires prev == if k == 0 then null else nodes[k - 1]
      modifies this, Nodes(nodes)
      ensures Valid() && nodes == Keep(old(nodes), {cur})
    {
      KeepOne(nodes, k);
      DistinctWithout(nodes, k);
      if prev == null {
        head := cur.next;
      } else {
        prev.next := cur.next;
      }
      nodes := nodes[..k] + nodes[k + 1..];
    }

    // registry_remove. link is &head while prev is null, then &prev->next.
    method Remove(node: Node?)
      requires Valid()
      modifies this, Nodes(nodes)
      ensures Valid()
      ensures nodes == if node == null then old(nodes) else Keep(old(nodes), {node})
    {
      if node == null {
        return;
      }
      var prev: Node? := null;
      var cur := head;
      ghost var k := 0;
      while cur != null
        invariant Valid() && nodes == old(nodes)
        invariant 0 <= k <= |nodes|
        invariant cur == if k < |nodes| then nodes[k] else null
        invariant prev == if k == 0 then null else nodes[k - 1]
        invariant forall i :: 0 <= i < k ==> nodes[i] != node
        decreases |nodes| - k
      {
        if cur == node {
          Unlink(prev, cur, k);
          return;
        }
        prev := cur;
        cur := cur.next;
        k := k + 1;
      }
      KeepAll(nodes, {node});
    }

    // One loop of litert_close_all: the references in the order they are closed.
    method TakeAll() returns (refs: seq<nat>)
      requires Valid()
      modifies this
      ensures Valid() && nodes == [] && refs == Refs(old(nodes))
    {
      ghost var all, k := nodes, 0;
      refs := [];
      while head != null
        invariant Valid() && k <= |all| && nodes == all[k..]
        invariant refs == Refs(all[..k])
        decreases |all| - k
      {
        refs := refs + [head.globalRef];
        head := head.next;
        nodes := nodes[1..];
        k := k + 1;
      }
      assert all[..k] == all;
    }
  }

  // A call of the bridge that closes a native handle.
  datatype Close = CloseBuffer(ref: nat) | CloseModel(ref: nat) | CloseEnvironment(ref: nat)

  ghost function BufferCloses(refs: seq<nat>): (c: seq<Close>)
    ensures |c| == |refs| && forall i :: 0 <= i < |c| ==> c[i] == CloseBuffer(refs[i])
  {
    seq(|refs|, i requires 0 <= i < |refs| => CloseBuffer(refs[i]))
  }

  // What the calls made by one run() will do: the handles and references the bridge
  // creates (None: it fails), and whether each later step succeeds.
  datatype Plan = Plan(inputs: Option<seq<(int, nat)>>, outputs: Option<seq<(int, nat)>>, args: nat,
                       writeOk: nat -> bool, runOk: bool, readOk: nat -> bool)

  datatype Outcome =
    | Returned
    | CreateFailed
    | WrongCount
    | WriteFailed(input: nat)
    | RunFailed
    | ReadFailed(output: nat)

  function FirstFailure(ok: nat -> bool, from: nat, n: nat): (r: nat)
    requires from <= n
    ensures from <= r <= n && (forall i :: from <= i < r ==> ok(i)) && (r < n ==> !ok(r))
    decreases n - from
  {
    if from == n || !ok(from) then from else FirstFailure(ok, from + 1, n)
  }

  // The first step that fails, in the order creates, count, writes, run, reads.
  function OutcomeOf(p: Plan): (r: Outcome)
    ensures r.CreateFailed? <==> p.inputs.None? || p.outputs.None?
    ensures !r.CreateFailed? ==>
              var ins, outs := |p.inputs.value|, |p.outputs.value|;
              && (r.WrongCount? <==> ins != p.args)
              && (r.WriteFailed? ==>
                    r.input < ins && !p.writeOk(r.input) && forall i :: 0 <= i < r.input ==> p.writeOk(i))
              && (r.RunFailed? || r.ReadFailed? || r.Returned? ==> forall i :: 0 <= i < ins ==> p.writeOk(i))
              && (r.RunFailed? ==> !p.runOk)
              && (r.ReadFailed? || r.Returned? ==> p.runOk)
              && (r.ReadFailed? ==>
                    r.output < outs && !p.readOk(r.output) && forall i :: 0 <= i < r.output ==> p.readOk(i))
              && (r.Returned? ==> forall i :: 0 <= i < outs ==> p.readOk(i))
  {
    if p.inputs.None? || p.outputs.None? then CreateFailed
    else if |p.inputs.value| != p.args then WrongCount
    else
      var w := FirstFailure(p.writeOk, 0, |p.inputs.value|);
      if w < |p.inputs.value| then WriteFailed(w)
      else if !p.runOk then RunFailed
      else
        var r := FirstFailure(p.readOk, 0, |p.outputs.value|);
        if r < |p.outputs.value| then ReadFailed(r) else Returned
  }

  function RefsOf(created: Option<seq<(int, nat)>>): (r: seq<nat>) {
    if created.None? then [] else seq(|created.value|, i requires 0 <= i < |created.value| => created.value[i].1)
  }

  // RunBuffers
  class RunBuffers {
    var inputs: seq<Node>
    var outputs: seq<Node>

    constructor ()
      ensures inputs == [] && outputs == []
    {
      inputs, outputs := [], [];
    }
  }

  class Litert {
    const buffers: Registry
    const models: Registry
    const environments: Registry
    ghost var closed: seq<Close>                  // close calls made so far
    ghost var runs: seq<(seq<nat>, seq<nat>)>     // run calls, with their references

    ghost predicate Valid()
      reads this, buffers, Nodes(buffers.nodes), models, Nodes(models.nodes), environments, Nodes(environments.nodes)
    {
      && buffers != models && buffers != environments && models != environments
      && buffers.Valid() && models.Valid() && environments.Valid()
      && Nodes(buffers.nodes) !! Nodes(models.nodes)
      && Nodes(buffers.nodes) !! Nodes(environments.nodes)
      && Nodes(models.nodes) !! Nodes(environments.nodes)
    }

    constructor ()
      ensures Valid() && closed == [] && runs == []
      ensures buffers.nodes == models.nodes == environments.nodes == []
    {
      buffers := new Registry();
      models := new Registry();
      environments := new Registry();
      closed, runs := [], [];
    }

    // One pass of the loop of create_buffer_set.
    method AddBuffer(rawHandle: int, globalRef: nat, ghost nodes: seq<Node>) returns (node: Node)
      requires buffers.Valid()
      modifies buffers
      ensures buffers.Valid() && fresh(node) && node.globalRef == globalRef
      ensures Keep(buffers.nodes, Nodes(nodes + [node])) == Keep(old(buffers.nodes), Nodes(nodes))
      ensures buffers.nodes == [node] + old(buffers.nodes)
      ensures Nodes(buffers.nodes) == old(Nodes(buffers.nodes)) + {node}
      ensures Nodes(nodes + [node]) == Nodes(nodes) + {node}
    {
      node := buffers.Add(rawHandle, globalRef);
      assert Nodes(nodes + [node]) == Nodes(nodes) + {node};
      KeepFresh(old(buffers.nodes), Nodes(nodes), node);
    }

    // create_buffer_set, once the bridge call has succeeded.
    method CreateBufferSet(created: seq<(int, nat)>) returns (nodes: seq<Node>)
      requires buffers.Valid()
      modifies buffers
      ensures buffers.Valid()
      ensures forall n :: n in nodes ==> fresh(n)
      ensures Keep(buffers.nodes, Nodes(nodes)) == old(buffers.nodes)
      ensures Refs(nodes) == RefsOf(Some(created))
      ensures Nodes(buffers.nodes) == old(Nodes(buffers.nodes)) + Nodes(nodes)
    {
      nodes := [];
      KeepNone(buffers.nodes);
      for i := 0 to |created|
        invariant buffers.Valid() && |nodes| == i
        invariant forall n :: n in nodes ==> fresh(n) && n in buffers.nodes
        invariant Keep(buffers.nodes, Nodes(nodes)) == old(buffers.nodes)
        invariant forall k :: 0 <= k < i ==> nodes[k].globalRef == created[k].1
        invariant Nodes(buffers.nodes) == old(Nodes(buffers.nodes)) + Nodes(nodes)
      {
        var node := AddBuffer(created[i].0, created[i].1, nodes);
        nodes := nodes + [node];
      }
    }

    // close_buffer_set: the bridge's answer is ignored.
    method CloseBufferSet(bufs: seq<Node>)
      requires buffers.Valid()
      modifies buffers, Nodes(buffers.nodes), this`closed
      ensures buffers.Valid()
      ensures buffers.nodes == Keep(old(buffers.nodes), Nodes(bufs))
      ensures closed == old(closed) + BufferCloses(Refs(bufs))
      ensures Nodes(buffers.nodes) <= old(Nodes(buffers.nodes))
    {
      KeepNone(buffers.nodes);
      for i := 0 to |bufs|
        invariant buffers.Valid()
        invariant buffers.nodes == Keep(old(buffers.nodes), Nodes(bufs[..i]))
        invariant Nodes(buffers.nodes) <= old(Nodes(buffers.nodes))
        invariant closed == old(closed) + BufferCloses(Refs(bufs[..i]))
      {
        closed := closed + [CloseBuffer(bufs[i].globalRef)];
        KeepTwice(old(buffers.nodes), Nodes(bufs[..i]), {bufs[i]});
        assert Nodes(bufs[..i + 1]) == Nodes(bufs[..i]) + {bufs[i]};
        KeepIn(buffers.nodes, {bufs[i]});
        buffers.Remove(bufs[i]);
      }
      assert bufs[..|bufs|] == bufs;
    }

    // The first lines of litert_compiled_model_run: either create may raise.
    method CreateBoth(p: Plan, bufs: RunBuffers) returns (created: bool)
      requires buffers.Valid() && bufs.inputs == bufs.outputs == []
      modifies buffers, bufs
      ensures buffers.Valid() && created == (p.inputs.Some? && p.outputs.Some?)
      ensures forall n :: n in bufs.inputs || n in bufs.outputs ==> fresh(n)
      ensures Keep(Keep(buffers.nodes, Nodes(bufs.inputs)), Nodes(bufs.outputs)) == old(buffers.nodes)
      ensures Refs(bufs.inputs) == RefsOf(p.inputs)
      ensures Refs(bufs.outputs) == if p.inputs.None? then [] else RefsOf(p.outputs)
      ensures Nodes(buffers.nodes) == old(Nodes(buffers.nodes)) + Nodes(bufs.inputs) + Nodes(bufs.outputs)
    {
      KeepNone(buffers.nodes);
      if p.inputs.None? {
        return false;
      }
      bufs.inputs := CreateBufferSet(p.inputs.value);
      if p.outputs.None? {
        return false;
      }
      bufs.outputs := CreateBufferSet(p.outputs.value);
      KeepEitherOrder(buffers.nodes, Nodes(bufs.inputs), Nodes(bufs.outputs));
      return true;
    }

    // The steps of litert_compiled_model_run on its buffers: the first that fails raises.
    method UseBuffers(p: Plan, inputs: seq<Node>, outputs: seq<Node>) returns (outcome: Outcome)
      requires p.inputs.Some? && |inputs| == |p.inputs.value|
      requires p.outputs.Some? && |outputs| == |p.outputs.value|
      modifies this`runs
      ensures outcome == OutcomeOf(p)
      ensures runs == if outcome.RunFailed? || outcome.ReadFailed? || outcome.Returned?
                      then old(runs) + [(Refs(inputs), Refs(outputs))] else old(runs)
    {
      if |inputs| != p.args {
        return WrongCount;
      }
      for i := 0 to |inputs|
        invariant forall k :: 0 <= k < i ==> p.writeOk(k)
      {
        if !p.writeOk(i) {
          return WriteFailed(i);
        }
      }
      runs := runs + [(Refs(inputs), Refs(outputs))];
      if !p.runOk {
        return RunFailed;
      }
      for i := 0 to |outputs|
        invariant forall k :: 0 <= k < i ==> p.readOk(k)
      {
        if !p.readOk(i) {
          return ReadFailed(i);
        }
      }
      return Returned;
    }

    // litert_compiled_model_run.
    method RunOnBuffers(p: Plan) returns (outcome: Outcome)
      requires buffers.Valid()
      modifies this`closed, this`runs, buffers, Nodes(buffers.nodes)
      ensures buffers.Valid() && outcome == OutcomeOf(p)
      ensures buffers.nodes == old(buffers.nodes)
      ensures closed == old(closed) + BufferCloses(RefsOf(p.inputs))
                        + BufferCloses(if p.inputs.None? then [] else RefsOf(p.outputs))
      ensures runs == if outcome.RunFailed? || outcome.ReadFailed? || outcome.Returned?
                      then old(runs) + [(RefsOf(p.inputs), RefsOf(p.outputs))] else old(runs)
    {
      var bufs := new RunBuffers();
      var created := CreateBoth(p, bufs);
      outcome := CreateFailed;
      if created {
        outcome := UseBuffers(p, bufs.inputs, bufs.outputs);
      }
      // Reached by the raise and by the return alike.
      CloseBoth(bufs.inputs, bufs.outputs);
    }

    method CloseBoth(inputs: seq<Node>, outputs: seq<Node>)
      requires buffers.Valid()
      modifies buffers, Nodes(buffers.nodes), this`closed
      ensures buffers.Valid()
      ensures buffers.nodes == Keep(Keep(old(buffers.nodes), Nodes(inputs)), Nodes(outputs))
      ensures closed == old(closed) + BufferCloses(Refs(inputs)) + BufferCloses(Refs(outputs))
    {
      CloseBufferSet(inputs);
      CloseBufferSet(outputs);
    }

    // The same among all registries: whatever the outcome, they are as they were, and
    // every buffer the bridge created is closed exactly once, inputs first.
    method Run(p: Plan) returns (outcome: Outcome)
      requires Valid()
      modifies this`closed, this`runs, buffers, Nodes(buffers.nodes)
      ensures Valid() && outcome == OutcomeOf(p)
      ensures buffers.nodes == old(buffers.nodes)
      ensures models.nodes == old(models.nodes) && environments.nodes == old(environments.nodes)
      ensures closed == old(closed) + BufferCloses(RefsOf(p.inputs))
                        + BufferCloses(if p.inputs.None? then [] else RefsOf(p.outputs))
    {
      outcome := RunOnBuffers(p);
    }

    // litert_close_all: buffers and models, then the environments they were made from.
    method CloseAll()
      requires Valid()
      modifies this`closed, buffers, models, environments
      ensures Valid()
      ensures buffers.nodes == [] && models.nodes == [] && environments.nodes == []
      ensures closed == old(closed) + BufferCloses(Refs(old(buffers.nodes)))
                        + ModelCloses(Refs(old(models.nodes))) + EnvironmentCloses(Refs(old(environments.nodes)))
    {
      var refs := buffers.TakeAll();
      closed := closed + BufferCloses(refs);
      refs := models.TakeAll();
      closed := closed + ModelCloses(refs);
      refs := environments.TakeAll();
      closed := closed + EnvironmentCloses(refs);
    }
  }

  ghost function ModelCloses(refs: seq<nat>): (c: seq<Close>)
    ensures |c| == |refs| && forall i :: 0 <= i < |c| ==> c[i] == CloseModel(refs[i])
  {
    seq(|refs|, i requires 0 <= i < |refs| => CloseModel(refs[i]))
  }

  ghost function EnvironmentCloses(refs: seq<nat>): (c: seq<Close>)
    ensures |c| == |refs| && forall i :: 0 <= i < |c| ==> c[i] == CloseEnvironment(refs[i])
  {
    seq(|refs|, i requires 0 <= i < |refs| => CloseEnvironment(refs[i]))
  }

  // A node put in front and then taken out again.
  lemma KeepFresh(s: seq<Node>, gone: set<Node>, n: Node)
    requires n !in s
    ensures Keep([n] + s, gone + {n}) == Keep(s, gone)
  {
    KeepTwice([n] + s, {n}, gone);
    KeepAll(s, {n});
    assert ([n] + s)[1..] == s;
    assert {n} + gone == gone + {n};
  }

  lemma {:induction false} KeepIn(s: seq<Node>, gone: set<Node>)
    ensures forall n :: n in Keep(s, gone) ==> n in s
  {
    if s != [] {
      KeepIn(s[1..], gone);
    }
  }
}
