/** The node's automaton configuration: kernel and activation rules with their sequence numbers, kept in flash. */
module StateManager {
  import opened Bytes

  const KERNEL_SIZE := 9
  const MAX_ACTIVATIONS := 8
  const STATE_CONFIG_MAGIC := 0x4d455348
  const STATE_CONFIG_VERSION := 1

  /** A float as its 32 bits: configurations are copied, never computed with here. */
  type float = uint32

  datatype Rule = Rule(op: byte, val: float)

  const NO_RULE := Rule(0, 0)

  type Kernel = k: seq<float> | |k| == KERNEL_SIZE witness [0, 0, 0, 0, 0, 0, 0, 0, 0]
  type Rules = r: seq<Rule> | |r| == MAX_ACTIVATIONS
    witness [NO_RULE, NO_RULE, NO_RULE, NO_RULE, NO_RULE, NO_RULE, NO_RULE, NO_RULE]

  /** The part of the node state that spreads through the mesh and survives a reboot. */
  datatype Config = Config(kseq: uint32, kernel: Kernel, aseq: uint32, rules: Rules, count: byte)

  /** What the flash holds. */
  datatype Blob = Blob(size: nat, magic: uint32, version: uint16, config: Config, kernelFunction: string)

  const BLOB_SIZE := 180   // sizeof(persisted_state_config_t)

  /** sequence++ */
  function Bump(n: uint32): uint32 {
    if n == 0xFFFF_FFFF then 0 else n + 1
  }

  /** The first `count` rules, the rest zeroed. */
  function Padded(rules: seq<Rule>, count: nat): Rules
    requires count <= MAX_ACTIVATIONS && count <= |rules|
  {
    rules[..count] + seq(MAX_ACTIVATIONS - count, i => NO_RULE)
  }

  function WithKernel(c: Config, kernel: Kernel): Config {
    c.(kseq := Bump(c.kseq), kernel := kernel)
  }

  function WithRules(c: Config, rules: Rules, count: byte): Config {
    c.(aseq := Bump(c.aseq), rules := rules, count := count)
  }

  /** Kernel and rules are taken over separately, each when its sequence number is greater. */
  function Adopt(c: Config, m: Config): Config {
    var k := if m.kseq > c.kseq then c.(kseq := m.kseq, kernel := m.kernel) else c;
    if m.aseq > c.aseq then k.(aseq := m.aseq, rules := m.rules, count := if m.count < MAX_ACTIVATIONS then m.count else MAX_ACTIVATIONS)
    else k
  }

  /** A blob that load_state_config accepts. */
  predicate Loadable(flash: Option<Blob>) {
    && flash.Some? && flash.value.size == BLOB_SIZE && flash.value.magic == STATE_CONFIG_MAGIC
    && flash.value.version == STATE_CONFIG_VERSION && flash.value.config.count <= MAX_ACTIVATIONS
  }

  function Saved(c: Config, kernelFunction: string): Option<Blob> {
    Some(Blob(BLOB_SIZE, STATE_CONFIG_MAGIC, STATE_CONFIG_VERSION, c, kernelFunction))
  }

  datatype Preset = Preset(kernel: Kernel, rules: seq<Rule>)

  const ONE: float := 0x3F80_0000    // 1.0f

  function PresetData(name: string): (p: Option<Preset>)
    ensures p.Some? ==> |p.value.rules| <= MAX_ACTIVATIONS
  {
    if name == "conway" then
      Some(Preset([ONE, ONE, ONE, ONE, ONE, ONE, ONE, ONE, 0x4110_0000],
                  [Rule(2, 0x4040_0000), Rule(2, 0x4130_0000), Rule(2, 0x4140_0000)]))
    else if name == "rule30" then Some(Preset([ONE, ONE, ONE, 0, 0, 0, 0, 0, 0], [Rule(2, ONE), Rule(2, 0x4000_0000)]))
    else if name == "majority" then Some(Preset([ONE, ONE, ONE, ONE, ONE, ONE, ONE, ONE, 0], [Rule(3, 0x4090_0000)]))
    else if name == "and" then Some(Preset([ONE, ONE, ONE, ONE, ONE, ONE, ONE, ONE, 0], [Rule(2, 0x4100_0000)]))
    else if name == "or" then Some(Preset([ONE, ONE, ONE, ONE, ONE, ONE, ONE, ONE, 0], [Rule(3, 0x3F00_0000)]))
    else None
  }

  class StateManager {
    var config: Config
    var vseq: uint32           // value_sequence
    var val: byte
    var kernelFunction: string
    var flash: Option<Blob>

    constructor (flash: Option<Blob>)
      ensures this.flash == flash
    {
      config := Config(0, [0, 0, 0, 0, 0, 0, 0, 0, 0], 0, seq(MAX_ACTIVATIONS, i => NO_RULE), 0);
      vseq, val, kernelFunction := 0, 0, "random";
      this.flash := flash;
    }

    /** save_state_config; `writes` says whether the flash takes the blob. */
    method Save(writes: bool)
      modifies this`flash
      ensures flash == if writes then Saved(config, kernelFunction) else old(flash)
      ensures writes ==> flash == Some(Blob(180, 0x4d455348, 1, config, kernelFunction))
    {
      if writes {
        flash := Some(Blob(BLOB_SIZE, STATE_CONFIG_MAGIC, STATE_CONFIG_VERSION, config, kernelFunction));
      }
    }

    method Load() returns (ok: bool)
      modifies this`config, this`kernelFunction
      ensures ok == Loadable(flash)
      ensures ok <==> flash.Some? && flash.value.size == 180 && flash.value.magic == 0x4d455348 && flash.value.version == 1 && flash.value.config.count <= 8
      ensures config == if ok then flash.value.config else old(config)
      ensures kernelFunction == if !ok then old(kernelFunction) else if flash.value.kernelFunction == "" then "custom" else flash.value.kernelFunction
    {
      if flash.None? || flash.value.size != BLOB_SIZE || flash.value.magic != STATE_CONFIG_MAGIC ||
         flash.value.version != STATE_CONFIG_VERSION || flash.value.config.count > MAX_ACTIVATIONS {
        return false;
      }
      config := flash.value.config;
      kernelFunction := flash.value.kernelFunction;
      if kernelFunction == "" {
        kernelFunction := "custom";
      }
      return true;
    }

    method SetKernelValues(values: Kernel, writes: bool)
      modifies this`config, this`kernelFunction, this`flash
      ensures config == WithKernel(old(config), values) && kernelFunction == "custom"
      ensures config.kernel == values && config.kseq == (old(config.kseq) + 1) % 0x1_0000_0000
      ensures config.aseq == old(config.aseq) && config.rules == old(config.rules) && config.count == old(config.count)
      ensures flash == if writes then Saved(config, kernelFunction) else old(flash)
    {
      config := config.(kernel := values);
      config := config.(kseq := Bump(config.kseq));
      kernelFunction := "custom";
      Save(writes);
    }

    /** More rules than there is room for are refused; without rules the count alone is taken over. */
    method SetActivationRules(rules: Option<seq<Rule>>, count: byte, writes: bool) returns (ok: bool)
      requires rules.Some? ==> count <= |rules.value|
      modifies this`config, this`flash
      ensures ok <==> count <= MAX_ACTIVATIONS
      ensures ok ==> config == WithRules(old(config), if rules.Some? then Padded(rules.value, count) else Padded([], 0), count)
      ensures ok ==> flash == if writes then Saved(config, kernelFunction) else old(flash)
      ensures !ok ==> config == old(config) && flash == old(flash)
      ensures ok ==> config.count == count && config.aseq == (old(config.aseq) + 1) % 0x1_0000_0000
      ensures ok ==> forall i {:trigger config.rules[i]} :: 0 <= i < 8 ==>
                       config.rules[i] == if rules.Some? && i < count as int then rules.value[i] else Rule(0, 0)
      ensures config.kernel == old(config.kernel) && config.kseq == old(config.kseq)
    {
      if count > MAX_ACTIVATIONS {
        return false;
      }
      var table := seq(MAX_ACTIVATIONS, i => NO_RULE);
      if count > 0 && rules.Some? {
        table := rules.value[..count] + table[count..];
      }
      assert rules.Some? ==> table == Padded(rules.value, count);
      assert rules.None? ==> table == Padded([], 0);
      config := config.(rules := table, count := count);
      config := config.(aseq := Bump(config.aseq));
      Save(writes);
      return true;
    }

    /** Both parts at once from a named preset. */
    method LoadPreset(name: string, writes: bool) returns (ok: bool)
      modifies this`config, this`kernelFunction, this`flash
      ensures ok <==> PresetData(name).Some?
      ensures ok <==> name in {"conway", "rule30", "majority", "and", "or"}
      ensures ok ==> config.kseq == (old(config.kseq) + 1) % 0x1_0000_0000 && config.aseq == (old(config.aseq) + 1) % 0x1_0000_0000
      ensures ok ==> var p := PresetData(name).value;
                     && config.kernel == p.kernel && config.count as int == |p.rules|
                     && forall i {:trigger config.rules[i]} :: 0 <= i < 8 ==> config.rules[i] == if i < |p.rules| then p.rules[i] else Rule(0, 0)
      ensures kernelFunction == if ok then name else old(kernelFunction)
      ensures ok ==> var p := PresetData(name).value;
                     config == WithRules(WithKernel(old(config), p.kernel), Padded(p.rules, |p.rules|), |p.rules|)
      ensures ok ==> flash == if writes then Saved(config, kernelFunction) else old(flash)
      ensures !ok ==> config == old(config) && flash == old(flash)
    {
      var preset := PresetData(name);
      if preset.None? {
        return false;
      }
      var rules := preset.value.rules;
      config := config.(kernel := preset.value.kernel, rules := Padded(rules, |rules|), count := |rules|);
      config := config.(kseq := Bump(config.kseq), aseq := Bump(config.aseq));
      kernelFunction := name;
      Save(writes);
      return true;
    }

    /** adopt_neighbor_rules on a received state; `random` stands for the random new value. */
    method AdoptNeighborRules(m: Config, neighborVseq: uint32, random: nat, writes: bool)
      modifies this
      ensures config == Adopt(old(config), m)
      ensures config.kseq == if m.kseq > old(config.kseq) then m.kseq else old(config.kseq)
      ensures config.kernel == if m.kseq > old(config.kseq) then m.kernel else old(config.kernel)
      ensures config.aseq == if m.aseq > old(config.aseq) then m.aseq else old(config.aseq)
      ensures config.rules == if m.aseq > old(config.aseq) then m.rules else old(config.rules)
      ensures config.count == if m.aseq <= old(config.aseq) then old(config.count) else if m.count < 8 then m.count else 8
      ensures kernelFunction == if m.kseq > old(config.kseq) then "mesh" else old(kernelFunction)
      ensures flash == if writes && config != old(config) then Saved(config, kernelFunction) else old(flash)
      ensures vseq == if neighborVseq > old(vseq) then neighborVseq else old(vseq)
      ensures val == if neighborVseq > old(vseq) then random % 2 else old(val)
    {
      var changed := false;
      if m.kseq > config.kseq {
        config := config.(kernel := m.kernel);
        config := config.(kseq := m.kseq);
        kernelFunction := "mesh";
        changed := true;
      }
      if m.aseq > config.aseq {
        config := config.(rules := m.rules, count := if m.count < MAX_ACTIVATIONS then m.count else MAX_ACTIVATIONS);
        config := config.(aseq := m.aseq);
        changed := true;
      }
      if changed {
        Save(writes);
      }
      if neighborVseq > vseq {
        vseq := neighborVseq;
        val := random % 2;
      }
    }

    /** init_state after a reboot: everything but the flash starts afresh. */
    method InitState(randomKernel: Kernel, random: nat, writes: bool)
      modifies this
      ensures config == Booted(old(flash), randomKernel)
      ensures Loadable(old(flash)) ==> config == old(flash).value.config
      ensures !Loadable(old(flash)) ==> config.kseq == 0 && config.aseq == 0 && config.count == 0 && config.kernel == randomKernel
      ensures !Loadable(old(flash)) ==> forall i {:trigger config.rules[i]} :: 0 <= i < 8 ==> config.rules[i] == Rule(0, 0)
      ensures flash == if writes && !Loadable(old(flash)) then Saved(config, kernelFunction) else old(flash)
      ensures vseq == 0 && val == random % 2
    {
      config := Config(0, [0, 0, 0, 0, 0, 0, 0, 0, 0], 0, Padded([], 0), 0);
      vseq := 0;
      val := random % 2;
      config := config.(kernel := randomKernel);
      var loaded := Load();
      if !loaded {
        Save(writes);
      }
    }
  }

  function Booted(flash: Option<Blob>, randomKernel: Kernel): Config {
    if Loadable(flash) then flash.value.config else Config(0, randomKernel, 0, Padded([], 0), 0)
  }

  /** A saved configuration is what the next boot starts with. */
  lemma SaveThenBoot(c: Config, kernelFunction: string, randomKernel: Kernel)
    ensures c.count <= MAX_ACTIVATIONS <==> Loadable(Saved(c, kernelFunction))
    ensures c.count <= MAX_ACTIVATIONS ==> Booted(Saved(c, kernelFunction), randomKernel) == c
  {
  }

  /** Past the last sequence number an update is taken for an old one. */
  lemma UpdateLostOnOverflow(c: Config, kernel: Kernel)
    requires c.kseq == 0xFFFF_FFFF
    ensures Adopt(c, WithKernel(c, kernel)) == c
  {
  }
}
