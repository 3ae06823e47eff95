/**
 * agents/factory.py: the registry from variant names to agent classes and
 * the `make_agent` lookup. Agent classes are opaque tags; which optional
 * imports succeeded is an input.
 */
module AgentFactory {
  import opened Wrappers

  /** The agent classes the factory imports; `VisDEX` and `E2EAgent` are the optional ones. */
  datatype Variant =
    | DDPG | DDPGBC | CoL | DEX | SAC | SQIL | AMP | AWAC | DoubleDDPG | DualDDPG
    | VisDEX | E2EAgent

  /** The ten classes `AGENTS` always holds. */
  const StandardVariants: seq<Variant> := [DDPG, DDPGBC, CoL, DEX, SAC, SQIL, AMP, AWAC, DoubleDDPG, DualDDPG]

  /** The key each class is registered under. */
  function KeyOf(v: Variant): string {
    match v
    case DDPG => "DDPG"
    case DDPGBC => "DDPGBC"
    case CoL => "CoL"
    case DEX => "DEX"
    case SAC => "SAC"
    case SQIL => "SQIL"
    case AMP => "AMP"
    case AWAC => "AWAC"
    case DoubleDDPG => "DoubleDDPG"
    case DualDDPG => "DualDDPG"
    case VisDEX => "VisDEX"
    case E2EAgent => "E2E"
  }

  /** The class registered under a key, if any: the inverse of `KeyOf`. */
  function VariantOfKey(name: string): Option<Variant> {
    if name == "DDPG" then Some(DDPG)
    else if name == "DDPGBC" then Some(DDPGBC)
    else if name == "CoL" then Some(CoL)
    else if name == "DEX" then Some(DEX)
    else if name == "SAC" then Some(SAC)
    else if name == "SQIL" then Some(SQIL)
    else if name == "AMP" then Some(AMP)
    else if name == "AWAC" then Some(AWAC)
    else if name == "DoubleDDPG" then Some(DoubleDDPG)
    else if name == "DualDDPG" then Some(DualDDPG)
    else if name == "VisDEX" then Some(VisDEX)
    else if name == "E2E" then Some(E2EAgent)
    else None
  }

  /** Whether a class is importable: the ten standard ones always, the optional ones when their import succeeded. */
  predicate Available(v: Variant, visdexImported: bool, e2eImported: bool) {
    match v
    case VisDEX => visdexImported
    case E2EAgent => e2eImported
    case _ => true
  }

  /** Reference definition of the registry's lookup: the class whose key `name` is, when that class is available. */
  function Registered(name: string, visdexImported: bool, e2eImported: bool): Option<Variant> {
    match VariantOfKey(name)
    case Some(v) => if Available(v, visdexImported, e2eImported) then Some(v) else None
    case None => None
  }

  /** `m.get(name)`. */
  function Lookup(m: map<string, Variant>, name: string): (r: Option<Variant>)
    ensures r.Some? <==> name in m
    ensures r.Some? ==> m[name] == r.value
  {
    if name in m then Some(m[name]) else None
  }

  /** `m` answers every lookup as the reference registry does. */
  ghost predicate IsRegistry(m: map<string, Variant>, visdexImported: bool, e2eImported: bool) {
    forall name :: Lookup(m, name) == Registered(name, visdexImported, e2eImported)
  }

  /** The configuration `make_agent` receives; only `name` is looked at, the rest is passed on. */
  datatype AgentCfg = AgentCfg(name: string, options: map<string, string>)

  /** An agent as its constructor is called: the class and the three keyword arguments. */
  datatype Agent<E, S> = Agent(variant: Variant, envParams: E, sampler: S, agentCfg: AgentCfg)

  /** How a Python call ends: it returns a value or raises `AssertionError` with a message. */
  datatype Outcome<T> = Returned(value: T) | Raised(message: string)

  /** Python truthiness of a string: non-empty. */
  predicate Truthy(s: string) {
    |s| > 0
  }

  /** `assert cond` followed by `next`: a bare `assert` raises `AssertionError` without a message. */
  function PyAssert<T>(cond: bool, next: T): (r: Outcome<T>)
    ensures r == Returned(next) <==> cond
  {
    if cond then Returned(next) else Raised("")
  }

  function UnsupportedMessage(name: string): string {
    "Agent is not supported: " + name
  }

  /** The ten entries `AGENTS` always holds. */
  const StandardAgents: map<string, Variant> := map[
    "DDPG" := DDPG, "DDPGBC" := DDPGBC, "CoL" := CoL, "DEX" := DEX, "SAC" := SAC,
    "SQIL" := SQIL, "AMP" := AMP, "AWAC" := AWAC, "DoubleDDPG" := DoubleDDPG,
    "DualDDPG" := DualDDPG]

  /** The module-level `AGENTS` dictionary. */
  class Registry {
    var agents: map<string, Variant>

    /** Builds `AGENTS`: the ten fixed entries, then the optional ones whose import succeeded. */
    constructor (visdexImported: bool, e2eImported: bool)
      ensures IsRegistry(agents, visdexImported, e2eImported)
    {
      agents := StandardAgents;
      new;
      StandardRegistry();
      if visdexImported {
        ghost var before := agents;
        agents := agents["VisDEX" := VisDEX];
        AddVisDEX(before);
      }
      if e2eImported {
        ghost var before := agents;
        agents := agents["E2E" := E2EAgent];
        AddE2E(before, visdexImported);
      }
    }

    /**
     * `make_agent` as written: for a name that is not registered it asserts a
     * non-empty string, which always passes, and then returns `None`.
     */
    function MakeAgent<E, S>(envParams: E, sampler: S, cfg: AgentCfg): (r: Outcome<Option<Agent<E, S>>>)
      reads this
      ensures r.Returned?
      ensures r.value.Some? <==> cfg.name in agents
      ensures r.value.Some? ==> r.value.value == Agent(agents[cfg.name], envParams, sampler, cfg)
    {
      if cfg.name !in agents then
        PyAssert(Truthy(UnsupportedMessage(cfg.name)), None)
      else
        Returned(Some(Agent(agents[cfg.name], envParams, sampler, cfg)))
    }

    /** `make_agent` with the guard it evidently intends: an unregistered name fails. */
    function MakeAgentChecked<E, S>(envParams: E, sampler: S, cfg: AgentCfg): (r: Outcome<Agent<E, S>>)
      reads this
      ensures r.Raised? <==> cfg.name !in agents
      ensures r.Raised? ==> r.message == UnsupportedMessage(cfg.name)
      ensures r.Returned? ==> r.value == Agent(agents[cfg.name], envParams, sampler, cfg)
    {
      if cfg.name !in agents then Raised(UnsupportedMessage(cfg.name))
      else Returned(Agent(agents[cfg.name], envParams, sampler, cfg))
    }
  }

  // ---------------------------------------------------------------------
  // Properties of the model

  /** Every class is recovered from its key. */
  lemma KeyRoundTrip(v: Variant)
    ensures VariantOfKey(KeyOf(v)) == Some(v)
  {
  }

  /** A key names at most one class, and it is that class's key. */
  lemma KeyOfVariantOfKey(name: string)
    ensures VariantOfKey(name).Some? ==> KeyOf(VariantOfKey(name).value) == name
  {
  }

  /** Distinct classes are registered under distinct keys. */
  lemma KeyOfInjective(a: Variant, b: Variant)
    requires KeyOf(a) == KeyOf(b)
    ensures a == b
  {
    KeyRoundTrip(a);
    KeyRoundTrip(b);
  }

  /** A name looks up class `v` exactly when `v` is available and the name is its key. */
  lemma RegisteredIsKeyInverse(visdexImported: bool, e2eImported: bool, name: string, v: Variant)
    ensures Registered(name, visdexImported, e2eImported) == Some(v)
      <==> Available(v, visdexImported, e2eImported) && KeyOf(v) == name
  {
    KeyRoundTrip(v);
    KeyOfVariantOfKey(name);
  }

  /** The ten standard entries are the registry when neither optional import succeeded. */
  lemma StandardRegistry()
    ensures IsRegistry(StandardAgents, false, false)
  {
  }

  /** Inserting `AGENTS['VisDEX']` turns the registry without it into the one with it. */
  lemma AddVisDEX(m: map<string, Variant>)
    requires IsRegistry(m, false, false)
    ensures IsRegistry(m["VisDEX" := VisDEX], true, false)
  {
    forall name ensures Lookup(m["VisDEX" := VisDEX], name) == Registered(name, true, false) {
      assert Lookup(m, name) == Registered(name, false, false);
      KeyOfVariantOfKey(name);
    }
  }

  /** Inserting `AGENTS['E2E']` turns the registry without it into the one with it. */
  lemma AddE2E(m: map<string, Variant>, visdexImported: bool)
    requires IsRegistry(m, visdexImported, false)
    ensures IsRegistry(m["E2E" := E2EAgent], visdexImported, true)
  {
    forall name ensures Lookup(m["E2E" := E2EAgent], name) == Registered(name, visdexImported, true) {
      assert Lookup(m, name) == Registered(name, visdexImported, false);
      KeyOfVariantOfKey(name);
    }
  }

  /**
   * The ten standard names are always keys; "VisDEX" and "E2E" are keys
   * exactly when their imports succeeded; every other name is not a key.
   */
  lemma RegistryKeys(m: map<string, Variant>, visdexImported: bool, e2eImported: bool)
    requires IsRegistry(m, visdexImported, e2eImported)
    ensures forall v :: v in StandardVariants ==> KeyOf(v) in m && m[KeyOf(v)] == v
    ensures "VisDEX" in m <==> visdexImported
    ensures "E2E" in m <==> e2eImported
    ensures forall name :: name in m <==> exists v :: Available(v, visdexImported, e2eImported) && KeyOf(v) == name
  {
    forall v | v in StandardVariants ensures KeyOf(v) in m && m[KeyOf(v)] == v {
      assert Lookup(m, KeyOf(v)) == Registered(KeyOf(v), visdexImported, e2eImported);
      KeyRoundTrip(v);
    }
    assert Lookup(m, "VisDEX") == Registered("VisDEX", visdexImported, e2eImported);
    assert Lookup(m, "E2E") == Registered("E2E", visdexImported, e2eImported);
    forall name ensures name in m <==> exists v :: Available(v, visdexImported, e2eImported) && KeyOf(v) == name {
      assert Lookup(m, name) == Registered(name, visdexImported, e2eImported);
      if name in m {
        RegisteredIsKeyInverse(visdexImported, e2eImported, name, m[name]);
      }
      if exists v :: Available(v, visdexImported, e2eImported) && KeyOf(v) == name {
        var v :| Available(v, visdexImported, e2eImported) && KeyOf(v) == name;
        RegisteredIsKeyInverse(visdexImported, e2eImported, name, v);
      }
    }
  }

  /**
   * Against the registry as built: `make_agent` constructs class `v` with the
   * given arguments exactly when `v` is available and registered under the
   * configured name.
   */
  lemma MakeAgentBuilt<E, S>(reg: Registry, visdexImported: bool, e2eImported: bool,
                             envParams: E, sampler: S, cfg: AgentCfg, v: Variant)
    requires IsRegistry(reg.agents, visdexImported, e2eImported)
    ensures reg.MakeAgent(envParams, sampler, cfg) == Returned(Some(Agent(v, envParams, sampler, cfg)))
      <==> Available(v, visdexImported, e2eImported) && KeyOf(v) == cfg.name
  {
    assert Lookup(reg.agents, cfg.name) == Registered(cfg.name, visdexImported, e2eImported);
    RegisteredIsKeyInverse(visdexImported, e2eImported, cfg.name, v);
  }

  /** An unregistered name does not fail: `make_agent` returns `None`. */
  lemma UnknownNameReturnsNone<E, S>(reg: Registry, visdexImported: bool, e2eImported: bool,
                                     envParams: E, sampler: S, cfg: AgentCfg)
    requires IsRegistry(reg.agents, visdexImported, e2eImported)
    requires forall v :: Available(v, visdexImported, e2eImported) ==> KeyOf(v) != cfg.name
    ensures reg.MakeAgent(envParams, sampler, cfg) == Returned(None)
  {
    assert Lookup(reg.agents, cfg.name) == Registered(cfg.name, visdexImported, e2eImported);
    if cfg.name in reg.agents {
      RegisteredIsKeyInverse(visdexImported, e2eImported, cfg.name, reg.agents[cfg.name]);
    }
  }

  /** With the intended guard, an unregistered name raises instead. */
  lemma UnknownNameRaisesWhenChecked<E, S>(reg: Registry, visdexImported: bool, e2eImported: bool,
                                           envParams: E, sampler: S, cfg: AgentCfg)
    requires IsRegistry(reg.agents, visdexImported, e2eImported)
    requires forall v :: Available(v, visdexImported, e2eImported) ==> KeyOf(v) != cfg.name
    ensures reg.MakeAgentChecked(envParams, sampler, cfg) == Raised(UnsupportedMessage(cfg.name))
  {
    assert Lookup(reg.agents, cfg.name) == Registered(cfg.name, visdexImported, e2eImported);
    if cfg.name in reg.agents {
      RegisteredIsKeyInverse(visdexImported, e2eImported, cfg.name, reg.agents[cfg.name]);
    }
  }
}
