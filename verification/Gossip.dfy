/**
 Spreading configurations through the mesh: one root issues them, every node sends snapshots of its own and adopts
 newer ones. Messages may be lost, repeated and reordered; nodes reboot; saves may fail on any node but the root.
 */
module Gossip {
  import opened Bytes
  import opened StateManager

  type NodeId = nat

  const ROOT: NodeId := 0

  datatype Node = Node(config: Config, flash: Option<Blob>)

  /** All nodes, and every snapshot ever sent: receiving none, one or many copies of any of them covers loss, repetition and reordering. */
  datatype Mesh = Mesh(nodes: map<NodeId, Node>, sent: set<Config>)

  datatype Step =
    | IssueKernel(kernel: Kernel)
    | IssueRules(rules: Rules, count: byte)
    | IssuePreset(name: string)
    | Send(from: NodeId)
    | Receive(to: NodeId, m: Config, writes: bool)
    | Reboot(node: NodeId, randomKernel: Kernel, writes: bool)

  function Store(g: Mesh, n: NodeId, config: Config, writes: bool): Mesh
    requires n in g.nodes
  {
    g.(nodes := g.nodes[n := Node(config, if writes then Saved(config, "") else g.nodes[n].flash)])
  }

  predicate Possible(g: Mesh, step: Step) {
    && ROOT in g.nodes
    && match step
       case IssueKernel(_) => g.nodes[ROOT].config.kseq < 0xFFFF_FFFF
       case IssueRules(_, count) => g.nodes[ROOT].config.aseq < 0xFFFF_FFFF && count <= MAX_ACTIVATIONS
       case IssuePreset(name) => PresetData(name).Some? && g.nodes[ROOT].config.kseq < 0xFFFF_FFFF && g.nodes[ROOT].config.aseq < 0xFFFF_FFFF
       case Send(n) => n in g.nodes
       case Receive(n, m, writes) => n in g.nodes && m in g.sent && (n == ROOT ==> writes)
       case Reboot(n, _, writes) => n in g.nodes && (n == ROOT ==> writes)
  }

  function After(g: Mesh, step: Step): Mesh
    requires Possible(g, step)
  {
    match step
    case IssueKernel(kernel) => Store(g, ROOT, WithKernel(g.nodes[ROOT].config, kernel), true)
    case IssueRules(rules, count) => Store(g, ROOT, WithRules(g.nodes[ROOT].config, rules, count), true)
    case IssuePreset(name) =>
      var p := PresetData(name).value;
      Store(g, ROOT, WithRules(WithKernel(g.nodes[ROOT].config, p.kernel), Padded(p.rules, |p.rules|), |p.rules|), true)
    case Send(n) => g.(sent := g.sent + {g.nodes[n].config})
    case Receive(n, m, writes) =>
      var c := g.nodes[n].config;
      Store(g, n, Adopt(c, m), writes && Adopt(c, m) != c)
    case Reboot(n, randomKernel, writes) =>
      Store(g, n, Booted(g.nodes[n].flash, randomKernel), writes && !Loadable(g.nodes[n].flash))
  }

  /** Everything the root has issued so far, by sequence number. */
  datatype History = History(kernels: seq<Kernel>, rules: seq<(Rules, byte)>)

  /** c holds what was issued under its numbers; number 0 stands for nothing issued. */
  predicate Genuine(h: History, c: Config) {
    && c.kseq <= |h.kernels| && (c.kseq > 0 ==> h.kernels[c.kseq - 1] == c.kernel)
    && c.aseq <= |h.rules| && (c.aseq > 0 ==> h.rules[c.aseq - 1] == (c.rules, c.count))
    && c.count <= MAX_ACTIVATIONS
  }

  /** The flash holds a genuine configuration that is no newer than the node's own. */
  predicate FlashBehind(h: History, node: Node) {
    Loadable(node.flash) ==>
      && Genuine(h, node.flash.value.config)
      && node.flash.value.config.kseq <= node.config.kseq && node.flash.value.config.aseq <= node.config.aseq
  }

  predicate UpToDateFlash(node: Node) {
    Loadable(node.flash) && node.flash.value.config == node.config
  }

  predicate Inv(g: Mesh, h: History) {
    && ROOT in g.nodes
    && |h.kernels| == g.nodes[ROOT].config.kseq && |h.rules| == g.nodes[ROOT].config.aseq
    && (forall n :: n in g.nodes ==> Genuine(h, g.nodes[n].config) && FlashBehind(h, g.nodes[n]))
    && (forall m :: m in g.sent ==> Genuine(h, m))
    && UpToDateFlash(g.nodes[ROOT])
  }

  /** The history after a step. */
  function Issued(h: History, step: Step): History {
    match step
    case IssueKernel(kernel) => h.(kernels := h.kernels + [kernel])
    case IssueRules(rules, count) => h.(rules := h.rules + [(rules, count)])
    case IssuePreset(name) =>
      var p := PresetData(name);
      if p.None? then h
      else History(h.kernels + [p.value.kernel], h.rules + [(Padded(p.value.rules, |p.value.rules|), |p.value.rules| as byte)])
    case _ => h
  }

  /** What was genuine stays genuine. */
  lemma GenuineLater(h: History, h1: History, c: Config)
    requires Genuine(h, c) && h.kernels <= h1.kernels && h.rules <= h1.rules
    ensures Genuine(h1, c)
  {
  }

  lemma AdoptGenuine(h: History, c: Config, m: Config)
    requires Genuine(h, c) && Genuine(h, m)
    ensures Genuine(h, Adopt(c, m))
    ensures Adopt(c, m).kseq == (if m.kseq > c.kseq then m.kseq else c.kseq)
    ensures Adopt(c, m).aseq == (if m.aseq > c.aseq then m.aseq else c.aseq)
  {
  }

  /** On genuine configurations adopting is a join: the order in which snapshots arrive, and repeats, make no difference beyond number 0. */
  lemma AdoptIsJoin(h: History, c: Config, m: Config, n: Config)
    requires Genuine(h, c) && Genuine(h, m) && Genuine(h, n)
    ensures Adopt(Adopt(c, m), n) == Adopt(Adopt(c, n), m)
    ensures Adopt(Adopt(c, m), m) == Adopt(c, m)
  {
  }

  /** Storing a genuine configuration that is not behind the old one, saved or not. */
  lemma StoreKeeps(g: Mesh, h: History, h1: History, n: NodeId, config: Config, writes: bool)
    requires Inv(g, h) && n in g.nodes && h.kernels <= h1.kernels && h.rules <= h1.rules
    requires Genuine(h1, config) && g.nodes[n].config.kseq <= config.kseq && g.nodes[n].config.aseq <= config.aseq
    requires if n == ROOT then |h1.kernels| == config.kseq && |h1.rules| == config.aseq && (writes || config == g.nodes[n].config)
             else h1 == h
    ensures Inv(Store(g, n, config, writes), h1)
  {
    var g1 := Store(g, n, config, writes);
    forall x | x in g1.nodes
      ensures Genuine(h1, g1.nodes[x].config) && FlashBehind(h1, g1.nodes[x])
    {
      if x != n {
        GenuineLater(h, h1, g.nodes[x].config);
      }
      if x in g.nodes && Loadable(g.nodes[x].flash) {
        GenuineLater(h, h1, g.nodes[x].flash.value.config);
      }
    }
    forall m | m in g1.sent
      ensures Genuine(h1, m)
    {
      GenuineLater(h, h1, m);
    }
  }

  /** A node other than the root falls back to what it last saved. */
  lemma RebootKeeps(g: Mesh, h: History, n: NodeId, randomKernel: Kernel, writes: bool)
    requires Inv(g, h) && n in g.nodes && n != ROOT
    ensures Inv(After(g, Reboot(n, randomKernel, writes)), h)
  {
  }

  /** Every step keeps the invariant: no number beyond the root's, and under one number one content, everywhere. */
  lemma StepKeeps(g: Mesh, h: History, step: Step)
    requires Inv(g, h) && Possible(g, step)
    ensures Inv(After(g, step), Issued(h, step))
  {
    var root := g.nodes[ROOT].config;
    match step
    case IssueKernel(kernel) =>
      StoreKeeps(g, h, Issued(h, step), ROOT, WithKernel(root, kernel), true);
    case IssueRules(rules, count) =>
      StoreKeeps(g, h, Issued(h, step), ROOT, WithRules(root, rules, count), true);
    case IssuePreset(name) =>
      var p := PresetData(name).value;
      StoreKeeps(g, h, Issued(h, step), ROOT, WithRules(WithKernel(root, p.kernel), Padded(p.rules, |p.rules|), |p.rules|), true);
    case Send(n) =>
    case Receive(n, m, writes) =>
      var c := g.nodes[n].config;
      AdoptGenuine(h, c, m);
      StoreKeeps(g, h, h, n, Adopt(c, m), writes && Adopt(c, m) != c);
    case Reboot(n, randomKernel, writes) =>
      if n == ROOT {
        assert Booted(g.nodes[n].flash, randomKernel) == root;
        StoreKeeps(g, h, h, n, root, false);
      } else {
        RebootKeeps(g, h, n, randomKernel, writes);
      }
  }

  predicate NotBehind(c: Config, d: Config) {
    c.kseq <= d.kseq && c.aseq <= d.aseq
  }

  /** Every node's flash holds its own configuration. */
  predicate AllSaved(g: Mesh) {
    forall n :: n in g.nodes ==> UpToDateFlash(g.nodes[n])
  }

  predicate Saves(step: Step) {
    match step
    case Receive(_, _, writes) => writes
    case Reboot(_, _, writes) => writes
    case _ => true
  }

  predicate NoneBehind(g: Mesh, g1: Mesh) {
    g1.nodes.Keys == g.nodes.Keys && forall n :: n in g.nodes ==> NotBehind(g.nodes[n].config, g1.nodes[n].config)
  }

  lemma StoreNotBehind(g: Mesh, n: NodeId, config: Config, writes: bool)
    requires AllSaved(g) && n in g.nodes && NotBehind(g.nodes[n].config, config) && config.count <= MAX_ACTIVATIONS
    requires writes || config == g.nodes[n].config
    ensures AllSaved(Store(g, n, config, writes)) && NoneBehind(g, Store(g, n, config, writes))
  {
  }

  /** While saves succeed no number ever decreases, reboots included. */
  lemma StepNotBehind(g: Mesh, h: History, step: Step)
    requires Inv(g, h) && Possible(g, step) && AllSaved(g) && Saves(step)
    ensures AllSaved(After(g, step)) && NoneBehind(g, After(g, step))
  {
    var root := g.nodes[ROOT].config;
    assert Genuine(h, root);
    hide AllSaved, NoneBehind, Inv, Store, FlashBehind;
    match step
    case IssueKernel(kernel) => StoreNotBehind(g, ROOT, WithKernel(root, kernel), true);
    case IssueRules(rules, count) => StoreNotBehind(g, ROOT, WithRules(root, rules, count), true);
    case IssuePreset(name) =>
      var p := PresetData(name).value;
      StoreNotBehind(g, ROOT, WithRules(WithKernel(root, p.kernel), Padded(p.rules, |p.rules|), |p.rules|), true);
    case Send(n) => SendNotBehind(g, n);
    case Receive(n, m, writes) =>
      var c := g.nodes[n].config;
      NodeGenuine(g, h, n);
      StoreNotBehind(g, n, Adopt(c, m), writes && Adopt(c, m) != c);
    case Reboot(n, randomKernel, writes) =>
      NodeGenuine(g, h, n);
      assert UpToDateFlash(g.nodes[n]) by { NodeSaved(g, n); }
      StoreNotBehind(g, n, g.nodes[n].config, false);
  }

  lemma NodeGenuine(g: Mesh, h: History, n: NodeId)
    requires Inv(g, h) && n in g.nodes
    ensures Genuine(h, g.nodes[n].config)
  {
  }

  lemma NodeSaved(g: Mesh, n: NodeId)
    requires AllSaved(g) && n in g.nodes
    ensures UpToDateFlash(g.nodes[n])
  {
  }

  lemma SendNotBehind(g: Mesh, n: NodeId)
    requires AllSaved(g) && n in g.nodes
    ensures AllSaved(g.(sent := g.sent + {g.nodes[n].config})) && NoneBehind(g, g.(sent := g.sent + {g.nodes[n].config}))
  {
  }

  /** The steps are possible one after the other. */
  predicate Runs(g: Mesh, steps: seq<Step>)
    decreases |steps|
  {
    steps == [] || (Possible(g, steps[0]) && Runs(After(g, steps[0]), steps[1..]))
  }

  function Run(g: Mesh, steps: seq<Step>): Mesh
    requires Runs(g, steps)
    decreases |steps|
  {
    if steps == [] then g else Run(After(g, steps[0]), steps[1..])
  }

  function HistoryAfter(h: History, steps: seq<Step>): History
    decreases |steps|
  {
    if steps == [] then h else HistoryAfter(Issued(h, steps[0]), steps[1..])
  }

  /** Safety over every run, with saves failing or not. */
  lemma {:induction false} RunKeeps(g: Mesh, h: History, steps: seq<Step>)
    requires Inv(g, h) && Runs(g, steps)
    ensures Inv(Run(g, steps), HistoryAfter(h, steps))
    decreases |steps|
  {
    if steps != [] {
      StepKeeps(g, h, steps[0]);
      hide Inv, After, Issued;
      RunKeeps(After(g, steps[0]), Issued(h, steps[0]), steps[1..]);
    }
  }

  /** What the invariant says about any two configurations in the mesh, in nodes or in messages. */
  lemma AgreeEverywhere(g: Mesh, h: History, c: Config, d: Config)
    requires Inv(g, h)
    requires c in g.sent || exists n :: n in g.nodes && g.nodes[n].config == c
    requires d in g.sent || exists n :: n in g.nodes && g.nodes[n].config == d
    ensures NotBehind(c, g.nodes[ROOT].config)
    ensures c.kseq == d.kseq > 0 ==> c.kernel == d.kernel
    ensures c.aseq == d.aseq > 0 ==> c.rules == d.rules && c.count == d.count
  {
  }

  /** Over every run with successful saves no node's numbers decrease. */
  lemma {:induction false} NumbersNeverDecrease(g: Mesh, h: History, steps: seq<Step>)
    requires Inv(g, h) && AllSaved(g) && Runs(g, steps) && forall i :: 0 <= i < |steps| ==> Saves(steps[i])
    ensures AllSaved(Run(g, steps)) && NoneBehind(g, Run(g, steps))
    decreases |steps|
  {
    if steps != [] {
      var g1 := After(g, steps[0]);
      StepKeeps(g, h, steps[0]);
      StepNotBehind(g, h, steps[0]);
      hide Inv, After, Issued, AllSaved;
      NumbersNeverDecrease(g1, Issued(h, steps[0]), steps[1..]);
      assert forall n :: n in g.nodes ==> NotBehind(g.nodes[n].config, g1.nodes[n].config);
    }
  }

  /** Nothing is issued in this step. */
  predicate Quiet(step: Step) { !step.IssueKernel? && !step.IssueRules? && !step.IssuePreset? }

  /** As new as the root. */
  predicate Current(g: Mesh, c: Config)
    requires ROOT in g.nodes
  {
    c.kseq == g.nodes[ROOT].config.kseq && c.aseq == g.nodes[ROOT].config.aseq
  }

  /** A snapshot as new as the root is all a node needs. */
  lemma CurrentByReceiving(g: Mesh, h: History, n: NodeId, m: Config, writes: bool)
    requires Inv(g, h) && Possible(g, Receive(n, m, writes)) && Current(g, m)
    ensures var g1 := After(g, Receive(n, m, writes)); ROOT in g1.nodes && n in g1.nodes && Current(g1, g1.nodes[n].config)
  {
  }

  lemma {:induction false} QuietHistory(h: History, steps: seq<Step>)
    requires forall i :: 0 <= i < |steps| ==> Quiet(steps[i])
    ensures HistoryAfter(h, steps) == h
    decreases |steps|
  {
    if steps != [] {
      QuietHistory(h, steps[1..]);
    }
  }

  /** With nothing issued, a node that is current stays current. */
  lemma StaysCurrent(g: Mesh, h: History, steps: seq<Step>, n: NodeId)
    requires Inv(g, h) && AllSaved(g) && Runs(g, steps) && n in g.nodes && Current(g, g.nodes[n].config)
    requires forall i :: 0 <= i < |steps| ==> Saves(steps[i]) && Quiet(steps[i])
    ensures var g1 := Run(g, steps); ROOT in g1.nodes && n in g1.nodes && Current(g1, g1.nodes[n].config)
  {
    RunKeeps(g, h, steps);
    NumbersNeverDecrease(g, h, steps);
    QuietHistory(h, steps);
    var g1 := Run(g, steps);
    assert NotBehind(g.nodes[n].config, g1.nodes[n].config) && Genuine(h, g1.nodes[n].config);
  }

  /** Some step of the run hands node n a snapshot as new as the root. */
  predicate Reached(g: Mesh, steps: seq<Step>, n: NodeId)
    requires Runs(g, steps)
    decreases |steps|
  {
    steps != [] &&
    ((steps[0].Receive? && steps[0].to == n && ROOT in g.nodes && Current(g, steps[0].m)) || Reached(After(g, steps[0]), steps[1..], n))
  }

  lemma {:induction false} ReachedIsCurrent(g: Mesh, h: History, steps: seq<Step>, n: NodeId)
    requires Inv(g, h) && AllSaved(g) && Runs(g, steps) && n in g.nodes && Reached(g, steps, n)
    requires forall i :: 0 <= i < |steps| ==> Saves(steps[i]) && Quiet(steps[i])
    ensures var g1 := Run(g, steps); ROOT in g1.nodes && n in g1.nodes && Current(g1, g1.nodes[n].config)
    decreases |steps|
  {
    var step, g1 := steps[0], After(g, steps[0]);
    StepKeeps(g, h, step);
    StepNotBehind(g, h, step);
    assert n in g1.nodes;
    if step.Receive? && step.to == n && Current(g, step.m) {
      CurrentByReceiving(g, h, n, step.m, step.writes);
      hide Inv, After, AllSaved, Current;
      StaysCurrent(g1, Issued(h, step), steps[1..], n);
    } else {
      hide Inv, After, AllSaved, Current;
      ReachedIsCurrent(g1, Issued(h, step), steps[1..], n);
    }
  }

  /**
   Convergence: once nothing more is issued and every other node has been handed a snapshot as new as the root,
   every node holds the root's kernel and rules, as far as any were issued.
   */
  lemma Converges(g: Mesh, h: History, steps: seq<Step>)
    requires Inv(g, h) && AllSaved(g) && Runs(g, steps)
    requires forall i :: 0 <= i < |steps| ==> Saves(steps[i]) && Quiet(steps[i])
    requires forall n :: n in g.nodes && n != ROOT ==> Reached(g, steps, n)
    ensures var g1 := Run(g, steps);
            && ROOT in g1.nodes && g1.nodes.Keys == g.nodes.Keys
            && forall n :: n in g1.nodes ==>
                 var c, root := g1.nodes[n].config, g1.nodes[ROOT].config;
                 && c.kseq == root.kseq && c.aseq == root.aseq
                 && (root.kseq > 0 ==> c.kernel == root.kernel)
                 && (root.aseq > 0 ==> c.rules == root.rules && c.count == root.count)
  {
    RunKeeps(g, h, steps);
    NumbersNeverDecrease(g, h, steps);
    var g1, h1 := Run(g, steps), HistoryAfter(h, steps);
    hide Run, Runs, HistoryAfter, AllSaved, FlashBehind, Reached;
    forall n | n in g1.nodes
      ensures Current(g1, g1.nodes[n].config)
      ensures Genuine(h1, g1.nodes[n].config)
    {
      if n != ROOT {
        ReachedIsCurrent(g, h, steps, n);
      }
    }
  }

  /** A mesh of nodes that have just booted for the first time. */
  ghost predicate FirstBoot(g: Mesh) {
    && ROOT in g.nodes && g.sent == {}
    && forall n :: n in g.nodes ==> exists kernel {:trigger Booted(None, kernel)} ::
         g.nodes[n] == Node(Booted(None, kernel), Saved(Booted(None, kernel), ""))
  }

  lemma FirstBootHolds(g: Mesh)
    requires FirstBoot(g)
    ensures Inv(g, History([], [])) && AllSaved(g)
  {
  }

  /** A node that could not save may go back when it reboots: the condition on saves is needed. */
  lemma UnsavedGoesBack(stale: Config, m: Config, randomKernel: Kernel)
    requires m.kseq > 0 && stale.kseq == 0 && stale.count <= MAX_ACTIVATIONS
    ensures var g := Mesh(map[ROOT := Node(m, None), 1 := Node(stale, Saved(stale, ""))], {m});
            var g1 := After(g, Receive(1, m, false));
            var g2 := After(g1, Reboot(1, randomKernel, true));
            g2.nodes[1].config.kseq < g1.nodes[1].config.kseq
  {
  }
}
