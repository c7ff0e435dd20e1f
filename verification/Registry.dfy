/** The fixed tables of loaded modules, kernels and device variables, and the dispatch
    functions that fill and read them. Pointers are numbers, null is 0. */
module Registry {
  import opened Basics

  const MAX_FATBINS: nat := 16
  const MAX_FUNCTIONS: nat := 256
  const MAX_VARS: nat := 32
  const MAX_FUNCTION_NAME: nat := 127

  type Char = c: char | c != '\0' witness 'a'

  /** A C string: the characters before the terminator. */
  type CString = seq<Char>

  /** A registered pair, with the (possibly truncated) name kept for a kernel. */
  datatype Entry = Entry(key: nat, value: nat, name: CString)

  datatype State = State(fatbins: seq<Entry>, functions: seq<Entry>, vars: seq<Entry>)

  const EMPTY := State([], [], [])

  /** Linear lookup: the first entry for `key`. */
  function First(t: seq<Entry>, key: nat): (r: Option<Entry>)
    ensures r.Some? ==> r.value in t && r.value.key == key
  {
    if t == [] then None else if t[0].key == key then Some(t[0]) else First(t[1..], key)
  }

  function ValueOf(r: Option<Entry>): nat {
    if r.Some? then r.value.value else 0
  }

  function Add(t: seq<Entry>, capacity: nat, e: Entry): seq<Entry> {
    if |t| >= capacity then t else t + [e]
  }

  function Truncated(name: CString): CString {
    if |name| > MAX_FUNCTION_NAME then name[..MAX_FUNCTION_NAME] else name
  }

  // ----- the static tables

  class Tables {
    const fatbins: array<Entry>
    const functions: array<Entry>
    const vars: array<Entry>
    var fatbinCount: nat
    var functionCount: nat
    var varCount: nat

    ghost predicate Valid()
      reads this, fatbins, functions, vars
    {
      && fatbins != functions && fatbins != vars && functions != vars
      && fatbins.Length == MAX_FATBINS && functions.Length == MAX_FUNCTIONS && vars.Length == MAX_VARS
      && fatbinCount <= MAX_FATBINS && functionCount <= MAX_FUNCTIONS && varCount <= MAX_VARS
    }

    ghost function View(): State
      requires Valid()
      reads this, fatbins, functions, vars
    {
      State(fatbins[..fatbinCount], functions[..functionCount], vars[..varCount])
    }

    /** `registry_reset` on fresh tables. */
    constructor ()
      ensures Valid() && View() == EMPTY && fresh(fatbins) && fresh(functions) && fresh(vars)
    {
      fatbins := new Entry[MAX_FATBINS](i => Entry(0, 0, []));
      functions := new Entry[MAX_FUNCTIONS](i => Entry(0, 0, []));
      vars := new Entry[MAX_VARS](i => Entry(0, 0, []));
      fatbinCount, functionCount, varCount := 0, 0, 0;
    }

    method AddFatbin(token: nat, mod: nat) returns (ok: bool)
      requires Valid()
      modifies this`fatbinCount, fatbins
      ensures Valid() && View() == old(View()).(fatbins := Add(old(View()).fatbins, MAX_FATBINS, Entry(token, mod, [])))
      ensures ok <==> |old(View()).fatbins| < 16
    {
      if fatbinCount >= MAX_FATBINS {
        return false;
      }
      fatbins[fatbinCount] := Entry(token, mod, []);
      fatbinCount := fatbinCount + 1;
      ok := true;
    }

    method AddFunction(hostFn: nat, function_: nat, name: Option<CString>) returns (ok: bool)
      requires Valid()
      modifies this`functionCount, functions
      ensures Valid()
      ensures View() == old(View()).(functions := Add(old(View()).functions, MAX_FUNCTIONS,
                          Entry(hostFn, function_, if name.Some? then Truncated(name.value) else [])))
      ensures ok <==> |old(View()).functions| < 256
    {
      if functionCount >= MAX_FUNCTIONS {
        return false;
      }
      var copy: CString := [];
      if name.Some? {
        var i := 0;
        while i < |name.value| && i < MAX_FUNCTION_NAME
          invariant i <= |name.value| && i <= MAX_FUNCTION_NAME && copy == name.value[..i]
        {
          copy := copy + [name.value[i]];
          i := i + 1;
        }
        assert copy == Truncated(name.value);
      }
      functions[functionCount] := Entry(hostFn, function_, copy);
      functionCount := functionCount + 1;
      assert functions[..functionCount] == old(functions[..functionCount]) + [Entry(hostFn, function_, copy)];
      ok := true;
    }

    method AddVar(hostVar: nat, devicePtr: nat) returns (ok: bool)
      requires Valid()
      modifies this`varCount, vars
      ensures Valid() && View() == old(View()).(vars := Add(old(View()).vars, MAX_VARS, Entry(hostVar, devicePtr, [])))
      ensures ok <==> |old(View()).vars| < 32
    {
      if varCount >= MAX_VARS {
        return false;
      }
      vars[varCount] := Entry(hostVar, devicePtr, []);
      varCount := varCount + 1;
      ok := true;
    }

    /** The scan behind `registry_find_module`, `_function`, `_function_name` and `_var`. */
    static method Find(t: array<Entry>, count: nat, key: nat) returns (r: Option<Entry>)
      requires count <= t.Length
      ensures r == First(t[..count], key)
    {
      var i := 0;
      while i < count
        invariant i <= count && First(t[..count], key) == First(t[..count][i..], key)
      {
        if t[i].key == key {
          return Some(t[i]);
        }
        assert t[..count][i..][1..] == t[..count][i + 1..];
        i := i + 1;
      }
      r := None;
    }
  }

  // ----- the dispatch functions

  /** A call from the PE side, with HIP's answers: `load` is hipModuleLoadData's module,
      `resolve` what hipModuleGetFunction or hipModuleGetGlobal makes of a module. */
  datatype Call =
    | RegisterFatBinary(data: nat, isBundle: bool, load: Option<nat>)
    | RegisterFunction(token: nat, hostFn: nat, name: CString, resolve: nat -> Option<nat>)
    | RegisterVar(token: nat, hostVar: nat, resolve: nat -> Option<nat>)
    | LaunchKernel(hostFn: nat)
    | MemcpyToSymbol(symbol: nat, offset: nat)

  /** What a call makes the device do, as far as the tables decide it. */
  datatype Effect = Nothing | Refused | Launched(function_: nat, name: CString) | CopiedTo(address: nat)

  function LoggedName(e: Entry): CString {
    if e.name == [] then ['?'] else e.name
  }

  function Module(s: State, token: nat): nat {
    ValueOf(First(s.fatbins, token))
  }

  /** What a registration would add to the function table. */
  function Resolved(s: State, c: Call): (r: Option<nat>)
    requires c.RegisterFunction? || c.RegisterVar?
  {
    if Module(s, c.token) == 0 then None else c.resolve(Module(s, c.token))
  }

  function Next(s: State, c: Call): State {
    match c
    case RegisterFatBinary(data, isBundle, load) =>
      if isBundle && load.Some? then s.(fatbins := Add(s.fatbins, MAX_FATBINS, Entry(data, load.value, []))) else s
    case RegisterFunction(_, hostFn, name, _) =>
      var r := Resolved(s, c);
      if r.Some? then s.(functions := Add(s.functions, MAX_FUNCTIONS, Entry(hostFn, r.value, Truncated(name)))) else s
    case RegisterVar(_, hostVar, _) =>
      var r := Resolved(s, c);
      if r.Some? then s.(vars := Add(s.vars, MAX_VARS, Entry(hostVar, r.value, []))) else s
    case LaunchKernel(_) => s
    case MemcpyToSymbol(_, _) => s
  }

  function EffectOf(s: State, c: Call): Effect {
    match c
    case LaunchKernel(hostFn) =>
      var e := First(s.functions, hostFn);
      if ValueOf(e) == 0 then Refused else Launched(e.value.value, LoggedName(e.value))
    case MemcpyToSymbol(symbol, offset) =>
      var e := First(s.vars, symbol);
      if ValueOf(e) == 0 then Refused else CopiedTo(e.value.value + offset)
    case _ => Nothing
  }

  method Dispatch(t: Tables, c: Call) returns (effect: Effect)
    requires t.Valid()
    modifies t, t.fatbins, t.functions, t.vars
    ensures t.Valid() && t.View() == Next(old(t.View()), c)
    ensures effect == EffectOf(old(t.View()), c)
  {
    effect := Nothing;
    match c
    case RegisterFatBinary(data, isBundle, load) =>
      if isBundle && load.Some? {
        var ok := t.AddFatbin(data, load.value);
      }
    case RegisterFunction(token, hostFn, name, resolve) =>
      var mod := Tables.Find(t.fatbins, t.fatbinCount, token);
      if ValueOf(mod) != 0 && resolve(ValueOf(mod)).Some? {
        var ok := t.AddFunction(hostFn, resolve(ValueOf(mod)).value, Some(name));
      }
    case RegisterVar(token, hostVar, resolve) =>
      var mod := Tables.Find(t.fatbins, t.fatbinCount, token);
      if ValueOf(mod) != 0 && resolve(ValueOf(mod)).Some? {
        var ok := t.AddVar(hostVar, resolve(ValueOf(mod)).value);
      }
    case LaunchKernel(hostFn) =>
      var found := Tables.Find(t.functions, t.functionCount, hostFn);
      if ValueOf(found) == 0 {
        return Refused;
      }
      var named := Tables.Find(t.functions, t.functionCount, hostFn);
      effect := Launched(found.value.value, LoggedName(named.value));
    case MemcpyToSymbol(symbol, offset) =>
      var found := Tables.Find(t.vars, t.varCount, symbol);
      effect := if ValueOf(found) == 0 then Refused else CopiedTo(found.value.value + offset);
  }

  // ----- what the tables hold after a run

  datatype Kind = Fatbins | Functions | Vars

  function Table(s: State, k: Kind): seq<Entry> {
    match k
    case Fatbins => s.fatbins
    case Functions => s.functions
    case Vars => s.vars
  }

  function Capacity(k: Kind): nat {
    match k
    case Fatbins => MAX_FATBINS
    case Functions => MAX_FUNCTIONS
    case Vars => MAX_VARS
  }

  /** The entry a call has for table `k`: a successful registration of that kind. */
  function Offer(s: State, c: Call, k: Kind): Option<Entry> {
    if k.Fatbins? && c.RegisterFatBinary? && c.isBundle && c.load.Some? then Some(Entry(c.data, c.load.value, []))
    else if k.Functions? && c.RegisterFunction? && Resolved(s, c).Some? then
      Some(Entry(c.hostFn, Resolved(s, c).value, Truncated(c.name)))
    else if k.Vars? && c.RegisterVar? && Resolved(s, c).Some? then Some(Entry(c.hostVar, Resolved(s, c).value, []))
    else None
  }

  /** The tables do not interfere: a call adds at most the entry it has for a table, and
      only if there is room. */
  lemma TablesIndependent(s: State, c: Call, k: Kind)
    ensures var offer := Offer(s, c, k);
            Table(Next(s, c), k) ==
            if offer.Some? && |Table(s, k)| < Capacity(k) then Table(s, k) + [offer.value] else Table(s, k)
  {
  }

  function After(cs: seq<Call>, n: nat): State
    requires n <= |cs|
  {
    if n == 0 then EMPTY else Next(After(cs, n - 1), cs[n - 1])
  }

  /** Call `i` is a successful registration of `key` in table `k` that found room. */
  predicate Registers(cs: seq<Call>, i: nat, k: Kind, key: nat)
    requires i < |cs|
  {
    var offer := Offer(After(cs, i), cs[i], k);
    offer.Some? && offer.value.key == key && |Table(After(cs, i), k)| < Capacity(k)
  }

  lemma {:induction false} FirstOfAppend(t: seq<Entry>, e: Entry, key: nat)
    ensures First(t + [e], key) == if First(t, key).Some? then First(t, key) else if e.key == key then Some(e) else None
  {
    if t != [] {
      FirstOfAppend(t[1..], e, key);
      assert (t + [e])[1..] == t[1..] + [e];
    } else {
      assert [e][1..] == [];
    }
  }

  lemma {:induction false} NothingRegistered(cs: seq<Call>, n: nat, k: Kind, key: nat)
    requires n <= |cs| && forall i :: 0 <= i < n ==> !Registers(cs, i, k, key)
    ensures First(Table(After(cs, n), k), key) == None
  {
    hide Next, Offer;
    if n > 0 {
      NothingRegistered(cs, n - 1, k, key);
      var s, c := After(cs, n - 1), cs[n - 1];
      TablesIndependent(s, c, k);
      assert !Registers(cs, n - 1, k, key);
      if Offer(s, c, k).Some? {
        FirstOfAppend(Table(s, k), Offer(s, c, k).value, key);
      }
    }
  }

  /** For each table, over any run: what a lookup finds for a key is what the first
      successful registration of that key stored, whatever came after. */
  lemma {:induction false} FirstRegistrationWins(cs: seq<Call>, i: nat, n: nat, k: Kind, key: nat)
    requires i < n <= |cs| && Registers(cs, i, k, key) && forall j :: 0 <= j < i ==> !Registers(cs, j, k, key)
    ensures First(Table(After(cs, n), k), key) == Offer(After(cs, i), cs[i], k)
  {
    hide Next, Offer;
    var s, c := After(cs, n - 1), cs[n - 1];
    TablesIndependent(s, c, k);
    if i == n - 1 {
      NothingRegistered(cs, i, k, key);
    } else {
      FirstRegistrationWins(cs, i, n - 1, k, key);
    }
    if Offer(s, c, k).Some? {
      FirstOfAppend(Table(s, k), Offer(s, c, k).value, key);
    }
  }

  /** A launch runs the function, and logs the name, of the first registration of its
      host pointer; that function was resolved in the module first loaded for its token. */
  lemma LaunchUsesFirstRegistration(cs: seq<Call>, m: nat, i: nat, n: nat, hostFn: nat)
    requires m < i < n <= |cs|
    requires Registers(cs, i, Functions, hostFn) && forall j :: 0 <= j < i ==> !Registers(cs, j, Functions, hostFn)
    requires Registers(cs, m, Fatbins, cs[i].token) && forall j :: 0 <= j < m ==> !Registers(cs, j, Fatbins, cs[i].token)
    ensures var resolved := cs[i].resolve(cs[m].load.value);
            && resolved.Some?
            && EffectOf(After(cs, n), LaunchKernel(hostFn)) ==
               if resolved.value == 0 then Refused
               else Launched(resolved.value, if cs[i].name == [] then ['?'] else Truncated(cs[i].name))
  {
    hide Next, After;
    FirstRegistrationWins(cs, i, n, Functions, hostFn);
    FirstRegistrationWins(cs, m, i, Fatbins, cs[i].token);
  }

  /** A kernel that was never successfully registered is never launched. */
  lemma UnregisteredNeverLaunched(cs: seq<Call>, n: nat, hostFn: nat)
    requires n <= |cs| && forall i :: 0 <= i < n ==> !Registers(cs, i, Functions, hostFn)
    ensures EffectOf(After(cs, n), LaunchKernel(hostFn)) == Refused
  {
    NothingRegistered(cs, n, Functions, hostFn);
  }

  /** A symbol copy goes to the first registration's device address plus the offset. */
  lemma SymbolCopyUsesFirstRegistration(cs: seq<Call>, m: nat, i: nat, n: nat, symbol: nat, offset: nat)
    requires m < i < n <= |cs|
    requires Registers(cs, i, Vars, symbol) && forall j :: 0 <= j < i ==> !Registers(cs, j, Vars, symbol)
    requires Registers(cs, m, Fatbins, cs[i].token) && forall j :: 0 <= j < m ==> !Registers(cs, j, Fatbins, cs[i].token)
    ensures var resolved := cs[i].resolve(cs[m].load.value);
            && resolved.Some?
            && EffectOf(After(cs, n), MemcpyToSymbol(symbol, offset)) ==
               if resolved.value == 0 then Refused else CopiedTo(resolved.value + offset)
  {
    hide Next, After;
    FirstRegistrationWins(cs, i, n, Vars, symbol);
    FirstRegistrationWins(cs, m, i, Fatbins, cs[i].token);
  }

  /** Nor is a symbol that was never successfully registered ever written through. */
  lemma UnregisteredNeverWritten(cs: seq<Call>, n: nat, symbol: nat, offset: nat)
    requires n <= |cs| && forall i :: 0 <= i < n ==> !Registers(cs, i, Vars, symbol)
    ensures EffectOf(After(cs, n), MemcpyToSymbol(symbol, offset)) == Refused
  {
    NothingRegistered(cs, n, Vars, symbol);
  }

  /** Registering works: with room in the tables and the keys new, a loaded bundle, a
      kernel of it and a variable of it can be launched and written to at once. */
  lemma RegisteredIsUsable(s: State, data: nat, mod: nat, hostFn: nat, name: CString, resolve: nat -> Option<nat>, hostVar: nat, find: nat -> Option<nat>)
    requires mod != 0 && resolve(mod).Some? && resolve(mod).value != 0 && find(mod).Some? && find(mod).value != 0
    requires |s.fatbins| < 16 && |s.functions| < 256 && |s.vars| < 32
    requires First(s.fatbins, data) == None && First(s.functions, hostFn) == None && First(s.vars, hostVar) == None
    ensures var s1 := Next(s, RegisterFatBinary(data, true, Some(mod)));
            var s2 := Next(s1, RegisterFunction(data, hostFn, name, resolve));
            var s3 := Next(s2, RegisterVar(data, hostVar, find));
            && EffectOf(s3, LaunchKernel(hostFn))
                 == Launched(resolve(mod).value, if name == [] then ['?'] else if |name| > 127 then name[..127] else name)
            && forall offset: nat :: EffectOf(s3, MemcpyToSymbol(hostVar, offset)) == CopiedTo(find(mod).value + offset)
  {
    hide First;
    FirstOfAppend(s.fatbins, Entry(data, mod, []), data);
    FirstOfAppend(s.functions, Entry(hostFn, resolve(mod).value, Truncated(name)), hostFn);
    FirstOfAppend(s.vars, Entry(hostVar, find(mod).value, []), hostVar);
  }

  /** A registration that does not succeed leaves the tables alone: bytes that are no
      bundle or do not load, a token with no module, a name the module does not have. */
  lemma FailedRegistrationsChangeNothing(s: State, c: Call)
    requires match c
             case RegisterFatBinary(_, isBundle, load) => !isBundle || load == None
             case RegisterFunction(token, _, _, resolve) => First(s.fatbins, token) == None || resolve(First(s.fatbins, token).value.value) == None
             case RegisterVar(token, _, resolve) => First(s.fatbins, token) == None || resolve(First(s.fatbins, token).value.value) == None
             case _ => true
    ensures Next(s, c) == s
    ensures !c.LaunchKernel? && !c.MemcpyToSymbol? ==> EffectOf(s, c) == Nothing
  {
  }
}
