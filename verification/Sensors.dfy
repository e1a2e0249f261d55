/** Evaluation of sensor readings in libsensors: a subfeature may have a compute expression that refers
    to other subfeatures, and nesting is cut off at a fixed depth. */
module Sensors {
  import opened ChipNames

  const DEPTH_MAX := 8

  datatype UnOp = Negate | Exp | Log
  datatype BinOp = Add | Sub | Multiply | Divide

  datatype Expr =
    | Val(val: real)
    | Source
    | Var(name: string)
    | Unary(uop: UnOp, e: Expr)
    | Binary(bop: BinOp, e1: Expr, e2: Expr)

  datatype Error = Wildcards | NoEntry | AccessR | DivZero | Recursion | Io(code: int)

  datatype Result = Ok(v: real) | Err(error: Error)

  datatype Subfeature = Subfeature(name: string, number: int, readable: bool, computed: bool, mapping: nat)
  datatype Features = Features(chip: ChipName, features: seq<string>, subfeatures: seq<Subfeature>)
  datatype Compute = Compute(name: string, fromProc: Expr)
  datatype ConfigChip = ConfigChip(fits: seq<ChipName>, computes: seq<Compute>)

  /** The detected chips, the configuration, and the outside: sysfs and the C library's functions. */
  datatype World = World(
    proc: seq<Features>, config: seq<ConfigChip>,
    sysfs: (ChipName, string) -> Result, exp: real -> real, log: real -> real)

  datatype Option<T> = None | Some(value: T)

  // ------------------------------------------------------------------ lookups

  predicate Fits(chips: seq<ChipName>, name: ChipName) {
    exists i :: 0 <= i < |chips| && Match(chips[i], name)
  }

  /** `sensors_lookup_chip`: the first detected chip that matches. */
  function LookupChip(proc: seq<Features>, name: ChipName): Option<Features> {
    if proc == [] then None
    else if Match(proc[0].chip, name) then Some(proc[0])
    else LookupChip(proc[1..], name)
  }

  function LookupName(subs: seq<Subfeature>, name: string): Option<Subfeature> {
    if subs == [] then None
    else if subs[0].name == name then Some(subs[0])
    else LookupName(subs[1..], name)
  }

  function FirstCompute(cs: seq<Compute>, feature: string): Option<Expr> {
    if cs == [] then None
    else if cs[0].name == feature then Some(cs[0].fromProc)
    else FirstCompute(cs[1..], feature)
  }

  /** The compute statement in force: the last matching chip section that has one for the feature. */
  function FindCompute(config: seq<ConfigChip>, name: ChipName, feature: string): Option<Expr> {
    if config == [] then None
    else
      var last := config[|config| - 1];
      var here := if Fits(last.fits, name) then FirstCompute(last.computes, feature) else None;
      if here.Some? then here else FindCompute(config[..|config| - 1], name, feature)
  }

  method MatchesAny(chips: seq<ChipName>, name: ChipName) returns (r: bool)
    ensures r == Fits(chips, name)
  {
    var i := 0;
    while i < |chips|
      invariant 0 <= i <= |chips| && forall k :: 0 <= k < i ==> !Match(chips[k], name)
    {
      if Match(chips[i], name) {
        return true;
      }
      i := i + 1;
    }
    r := false;
  }

  /** `sensors_for_all_config_chips`: the last matching section before `last`, or none. */
  method ForAllConfigChips(config: seq<ConfigChip>, name: ChipName, last: nat) returns (nr: int)
    requires last <= |config|
    ensures -1 <= nr < last
    ensures nr >= 0 ==> Fits(config[nr].fits, name)
    ensures forall k :: nr < k < last ==> !Fits(config[k].fits, name)
  {
    nr := last - 1;
    while nr >= 0
      invariant -1 <= nr < last && forall k :: nr < k < last ==> !Fits(config[k].fits, name)
    {
      var r := MatchesAny(config[nr].fits, name);
      if r {
        return;
      }
      nr := nr - 1;
    }
  }

  /** The search of `__sensors_get_value` for a compute statement. */
  method SearchCompute(config: seq<ConfigChip>, name: ChipName, feature: string) returns (expr: Option<Expr>)
    ensures expr == FindCompute(config, name, feature)
  {
    expr := None;
    var chip := |config|;
    assert config[..chip] == config;
    while !expr.Some? && chip > 0
      invariant 0 <= chip <= |config|
      invariant FindCompute(config, name, feature) ==
                if expr.Some? then expr else FindCompute(config[..chip], name, feature)
      decreases chip, !expr.Some?
    {
      var nr := ForAllConfigChips(config, name, chip);
      SkipSections(config, name, feature, chip, nr);
      if nr < 0 {
        return None;
      }
      assert config[..nr + 1][..nr] == config[..nr];
      var i := 0;
      var computes := config[nr].computes;
      while i < |computes|
        invariant 0 <= i <= |computes| && expr == None
        invariant FirstCompute(computes, feature) == FirstCompute(computes[i..], feature)
      {
        if computes[i].name == feature {
          expr := Some(computes[i].fromProc);
          break;
        }
        assert computes[i..][1..] == computes[i + 1..];
        i := i + 1;
      }
      chip := nr;
    }
  }

  /** Sections that do not match have no say. */
  lemma {:induction false} SkipSections(config: seq<ConfigChip>, name: ChipName, feature: string, hi: nat, nr: int)
    requires -1 <= nr < hi <= |config|
    requires forall k :: nr < k < hi ==> !Fits(config[k].fits, name)
    ensures FindCompute(config[..hi], name, feature) == FindCompute(config[..nr + 1], name, feature)
    decreases hi
  {
    if nr + 1 < hi {
      assert config[..hi][..hi - 1] == config[..hi - 1];
      SkipSections(config, name, feature, hi - 1, nr);
    }
  }

  // ------------------------------------------------------------------ the evaluator

  predicate WorldOk(w: World) {
    forall f :: f in w.proc ==>
      forall s :: s in f.subfeatures ==> s.computed ==> s.mapping < |f.features|
  }

  function ApplyUnary(w: World, op: UnOp, a: real): Result {
    match op
    case Negate => Ok(-a)
    case Exp => Ok(w.exp(a))
    case Log => if a < 0.0 then Err(DivZero) else Ok(w.log(a))
  }

  function ApplyBinary(op: BinOp, a: real, b: real): Result {
    match op
    case Add => Ok(a + b)
    case Sub => Ok(a - b)
    case Multiply => Ok(a * b)
    case Divide => if b == 0.0 then Err(DivZero) else Ok(a / b)
  }

  /** What the lookups of `__sensors_get_value` come to. */
  datatype Lookup = Failed(error: Error) | Found(chip: Features, sub: Subfeature, expr: Option<Expr>)

  lemma {:induction false} LookupChipIn(proc: seq<Features>, name: ChipName)
    ensures LookupChip(proc, name).Some? ==> LookupChip(proc, name).value in proc
  {
    if proc != [] {
      LookupChipIn(proc[1..], name);
    }
  }

  function Find(w: World, name: ChipName, nr: int): Lookup
    requires WorldOk(w)
  {
    if HasWildcards(name) then Failed(Wildcards)
    else
      LookupChipIn(w.proc, name);
      match LookupChip(w.proc, name)
      case None => Failed(NoEntry)
      case Some(f) =>
        if nr < 0 || nr >= |f.subfeatures| then Failed(NoEntry)
        else
          var s := f.subfeatures[nr];
          if !s.readable then Failed(AccessR)
          else Found(f, s, if s.computed then FindCompute(w.config, name, f.features[s.mapping]) else None)
  }

  /** `__sensors_get_value`, with the cut-off as a parameter. */
  function GetValue(w: World, name: ChipName, nr: int, depth: nat, limit: nat): Result
    requires WorldOk(w)
    decreases if limit > depth then limit - depth else 0, 1, Source
  {
    if depth >= limit then Err(Recursion)
    else
      match Find(w, name, nr)
      case Failed(e) => Err(e)
      case Found(chip, sub, expr) =>
        var val := w.sysfs(name, sub.name);
        if val.Err? then val
        else if expr.None? then val
        else EvalExpr(w, chip, expr.value, val.v, depth, limit)
  }

  /** `sensors_eval_expr`. */
  function EvalExpr(w: World, chip: Features, expr: Expr, val: real, depth: nat, limit: nat): Result
    requires WorldOk(w) && depth < limit
    decreases limit - depth, 0, expr
  {
    match expr
    case Val(v) => Ok(v)
    case Source => Ok(val)
    case Var(x) =>
      (match LookupName(chip.subfeatures, x)
       case None => Err(NoEntry)
       case Some(s) => GetValue(w, chip.chip, s.number, depth + 1, limit))
    case Unary(op, e) =>
      var r := EvalExpr(w, chip, e, val, depth, limit);
      if r.Err? then r else ApplyUnary(w, op, r.v)
    case Binary(op, e1, e2) =>
      var r1 := EvalExpr(w, chip, e1, val, depth, limit);
      if r1.Err? then r1
      else
        var r2 := EvalExpr(w, chip, e2, val, depth, limit);
        if r2.Err? then r2 else ApplyBinary(op, r1.v, r2.v)
  }

  // ------------------------------------------------------------------ what the lookups find

  /** The first detected chip that matches the name. */
  ghost predicate FirstChip(proc: seq<Features>, name: ChipName, i: int) {
    0 <= i < |proc| && Match(proc[i].chip, name) && forall j :: 0 <= j < i ==> !Match(proc[j].chip, name)
  }

  lemma {:induction false} LookupChipExact(proc: seq<Features>, name: ChipName)
    ensures LookupChip(proc, name).Some? ==>
      exists i :: FirstChip(proc, name, i) && proc[i] == LookupChip(proc, name).value
    ensures LookupChip(proc, name).None? ==> forall j :: 0 <= j < |proc| ==> !Match(proc[j].chip, name)
  {
    hide Match;
    if proc != [] {
      if Match(proc[0].chip, name) {
        assert FirstChip(proc, name, 0);
      } else {
        LookupChipExact(proc[1..], name);
        if LookupChip(proc[1..], name).Some? {
          var i :| FirstChip(proc[1..], name, i) && proc[1..][i] == LookupChip(proc[1..], name).value;
          assert forall j :: 0 < j < |proc| ==> proc[j] == proc[1..][j - 1];
          assert FirstChip(proc, name, i + 1);
        } else {
          assert forall j :: 0 < j < |proc| ==> proc[j] == proc[1..][j - 1];
        }
      }
    }
  }

  /** The first subfeature of that name. */
  ghost predicate FirstNamed(subs: seq<Subfeature>, name: string, i: int) {
    0 <= i < |subs| && subs[i].name == name && forall j :: 0 <= j < i ==> subs[j].name != name
  }

  lemma {:induction false} LookupNameExact(subs: seq<Subfeature>, name: string)
    ensures LookupName(subs, name).Some? ==>
      exists i :: FirstNamed(subs, name, i) && subs[i] == LookupName(subs, name).value
    ensures LookupName(subs, name).None? ==> forall j :: 0 <= j < |subs| ==> subs[j].name != name
  {
    if subs != [] {
      if subs[0].name == name {
        assert FirstNamed(subs, name, 0);
      } else {
        LookupNameExact(subs[1..], name);
        assert forall j :: 0 < j < |subs| ==> subs[j] == subs[1..][j - 1];
        if LookupName(subs[1..], name).Some? {
          var i :| FirstNamed(subs[1..], name, i) && subs[1..][i] == LookupName(subs[1..], name).value;
          assert FirstNamed(subs, name, i + 1);
        }
      }
    }
  }

  /** The `k`th statement of section `i` is the first of that section for the feature. */
  ghost predicate States(config: seq<ConfigChip>, name: ChipName, feature: string, i: int, k: int) {
    && 0 <= i < |config| && Fits(config[i].fits, name)
    && 0 <= k < |config[i].computes| && config[i].computes[k].name == feature
    && forall j :: 0 <= j < k ==> config[i].computes[j].name != feature
  }

  /** Section `i` has nothing to say about the feature. */
  ghost predicate Silent(c: ConfigChip, name: ChipName, feature: string) {
    Fits(c.fits, name) ==> forall k :: 0 <= k < |c.computes| ==> c.computes[k].name != feature
  }

  lemma {:induction false} FirstComputeExact(cs: seq<Compute>, feature: string) returns (k: int)
    ensures FirstCompute(cs, feature).None? ==> forall j :: 0 <= j < |cs| ==> cs[j].name != feature
    ensures FirstCompute(cs, feature).Some? ==>
      && 0 <= k < |cs| && cs[k].name == feature && cs[k].fromProc == FirstCompute(cs, feature).value
      && forall j :: 0 <= j < k ==> cs[j].name != feature
  {
    k := 0;
    if cs != [] && cs[0].name != feature {
      var m := FirstComputeExact(cs[1..], feature);
      k := m + 1;
      assert forall j :: 0 < j < |cs| ==> cs[j] == cs[1..][j - 1];
    }
  }

  /** The compute statement in force is the first one for the feature in the last matching section that has
      one. */
  lemma {:induction false} FindComputeExact(config: seq<ConfigChip>, name: ChipName, feature: string)
    ensures FindCompute(config, name, feature).None? ==>
      forall i :: 0 <= i < |config| ==> Silent(config[i], name, feature)
    ensures FindCompute(config, name, feature).Some? ==> exists i, k ::
      && States(config, name, feature, i, k)
      && config[i].computes[k].fromProc == FindCompute(config, name, feature).value
      && forall j :: i < j < |config| ==> Silent(config[j], name, feature)
  {
    hide Fits;
    if config != [] {
      var n := |config| - 1;
      var last := config[n];
      var k := FirstComputeExact(last.computes, feature);
      if Fits(last.fits, name) && FirstCompute(last.computes, feature).Some? {
        assert States(config, name, feature, n, k);
      } else {
        assert Silent(config[n], name, feature);
        var init := config[..n];
        FindComputeExact(init, name, feature);
        if FindCompute(init, name, feature).Some? {
          var i, m :|
            && States(init, name, feature, i, m)
            && init[i].computes[m].fromProc == FindCompute(init, name, feature).value
            && forall j :: i < j < |init| ==> Silent(init[j], name, feature);
          assert config[i] == init[i] && forall j :: i < j < n ==> config[j] == init[j];
          assert States(config, name, feature, i, m);
        }
      }
    }
  }

  /** What reading a subfeature comes to, spelt out: the error for each way to fail, and otherwise the
      subfeature of that number of the first matching chip, with the statement in force only if it is marked
      for computation. */
  lemma FindExact(w: World, name: ChipName, nr: int)
    requires WorldOk(w)
    ensures var f, chip := Find(w, name, nr), LookupChip(w.proc, name);
      if name.prefix.AnyPrefix? || name.busType == -1 || name.busNr == -1 || name.addr == -1 then f == Failed(Wildcards)
      else if chip.None? || !(0 <= nr < |chip.value.subfeatures|) then f == Failed(NoEntry)
      else if !chip.value.subfeatures[nr].readable then f == Failed(AccessR)
      else
        && f.Found? && f.chip == chip.value && f.sub == chip.value.subfeatures[nr]
        && (!f.sub.computed ==> f.expr == None)
        && (f.sub.computed ==> f.sub.mapping < |f.chip.features|)
        && (f.sub.computed ==> f.expr == FindCompute(w.config, name, f.chip.features[f.sub.mapping]))
  {
    LookupChipIn(w.proc, name);
  }

  // ------------------------------------------------------------------ meaning without a depth limit

  /** A finite account of what a subfeature, or an expression, evaluates to: a value or an error. */
  datatype Deriv = Refused | Unread | Plain | Computed(d: ExprDeriv)
  datatype ExprDeriv =
    | Constant
    | Reading
    | Unknown
    | ByVar(g: Deriv)
    | Un(d: ExprDeriv, a: Result)
    | LeftFails(d: ExprDeriv)
    | Bin(d1: ExprDeriv, a1: real, d2: ExprDeriv, a2: Result)

  /** A subfeature that cannot be looked up or read gives that error; one without a compute statement is its
      reading. */
  ghost predicate Gets(w: World, name: ChipName, nr: int, d: Deriv, r: Result)
    requires WorldOk(w)
    decreases d
  {
    match Find(w, name, nr)
    case Failed(e) => d.Refused? && r == Err(e)
    case Found(chip, sub, expr) =>
      var val := w.sysfs(name, sub.name);
      match d
      case Refused => false
      case Unread => val.Err? && r == val
      case Plain => val.Ok? && expr.None? && r == val
      case Computed(x) => val.Ok? && expr.Some? && Evals(w, chip, expr.value, val.v, x, r)
  }

  /** Operands are evaluated from left to right, and the first error is the result. */
  ghost predicate Evals(w: World, chip: Features, e: Expr, val: real, d: ExprDeriv, r: Result)
    requires WorldOk(w)
    decreases d
  {
    match d
    case Constant => e.Val? && r == Ok(e.val)
    case Reading => e.Source? && r == Ok(val)
    case Unknown => e.Var? && LookupName(chip.subfeatures, e.name).None? && r == Err(NoEntry)
    case ByVar(g) =>
      e.Var? && LookupName(chip.subfeatures, e.name).Some?
      && Gets(w, chip.chip, LookupName(chip.subfeatures, e.name).value.number, g, r)
    case Un(x, a) =>
      e.Unary? && Evals(w, chip, e.e, val, x, a) && if a.Err? then r == a else UnaryMeans(w, e.uop, a.v, r)
    case LeftFails(x) => e.Binary? && r.Err? && Evals(w, chip, e.e1, val, x, r)
    case Bin(x1, a1, x2, a2) =>
      e.Binary? && Evals(w, chip, e.e1, val, x1, Ok(a1)) && Evals(w, chip, e.e2, val, x2, a2)
      && if a2.Err? then r == a2 else BinaryMeans(e.bop, a1, a2.v, r)
  }

  /** What the operators mean: the opposite of `a`, its exponential, or its logarithm unless `a` is
      negative. */
  predicate UnaryMeans(w: World, op: UnOp, a: real, r: Result) {
    match op
    case Negate => r.Ok? && r.v + a == 0.0
    case Exp => r == Ok(w.exp(a))
    case Log => if 0.0 <= a then r == Ok(w.log(a)) else r == Err(DivZero)
  }

  /** The sum, the difference, the product, or the quotient of `a` and `b` unless `b` is zero. */
  predicate BinaryMeans(op: BinOp, a: real, b: real, r: Result) {
    match op
    case Add => r.Ok? && r.v - b == a
    case Sub => r.Ok? && r.v + b == a
    case Multiply => r == Ok(a * b)
    case Divide => if b == 0.0 then r == Err(DivZero) else r.Ok? && r.v * b == a
  }

  lemma UnaryExact(w: World, op: UnOp, a: real, r: Result)
    ensures ApplyUnary(w, op, a) == r <==> UnaryMeans(w, op, a, r)
  {
  }

  lemma BinaryExact(op: BinOp, a: real, b: real, r: Result)
    ensures ApplyBinary(op, a, b) == r <==> BinaryMeans(op, a, b, r)
  {
    if op.Divide? && b != 0.0 && r.Ok? {
      Quotient(a, b, r.v);
    }
  }

  lemma Quotient(a: real, b: real, v: real)
    requires b != 0.0
    ensures v == a / b <==> v * b == a
  {
    assert (a / b) * b == a;
    if v * b == a {
      assert (v - a / b) * b == 0.0;
    }
  }

  /** How deep references to other subfeatures nest. */
  function Nesting(d: Deriv): nat {
    if d.Computed? then ExprNesting(d.d) else 0
  }

  function ExprNesting(d: ExprDeriv): nat {
    match d
    case ByVar(g) => 1 + Nesting(g)
    case Un(x, _) => ExprNesting(x)
    case LeftFails(x) => ExprNesting(x)
    case Bin(x1, _, x2, _) => if ExprNesting(x1) > ExprNesting(x2) then ExprNesting(x1) else ExprNesting(x2)
    case _ => 0
  }

  lemma {:induction false} GetComplete(w: World, name: ChipName, nr: int, d: Deriv, r: Result, depth: nat, limit: nat)
    requires WorldOk(w) && Gets(w, name, nr, d, r) && depth + Nesting(d) < limit
    ensures GetValue(w, name, nr, depth, limit) == r
    decreases d
  {
    hide Find, WorldOk;
    if d.Computed? {
      var f := Find(w, name, nr);
      EvalComplete(w, f.chip, f.expr.value, w.sysfs(name, f.sub.name).v, d.d, r, depth, limit);
    }
  }

  lemma {:induction false} EvalComplete(w: World, chip: Features, e: Expr, val: real, d: ExprDeriv, r: Result,
                                        depth: nat, limit: nat)
    requires WorldOk(w) && Evals(w, chip, e, val, d, r) && depth + ExprNesting(d) < limit
    ensures EvalExpr(w, chip, e, val, depth, limit) == r
    decreases d
  {
    hide Find, WorldOk;
    match d {
      case ByVar(g) =>
        GetComplete(w, chip.chip, LookupName(chip.subfeatures, e.name).value.number, g, r, depth + 1, limit);
      case Un(x, a) =>
        EvalComplete(w, chip, e.e, val, x, a, depth, limit);
        if a.Ok? { UnaryExact(w, e.uop, a.v, r); }
      case LeftFails(x) => EvalComplete(w, chip, e.e1, val, x, r, depth, limit);
      case Bin(x1, a1, x2, a2) =>
        EvalComplete(w, chip, e.e1, val, x1, Ok(a1), depth, limit);
        EvalComplete(w, chip, e.e2, val, x2, a2, depth, limit);
        if a2.Ok? { BinaryExact(e.bop, a1, a2.v, r); }
      case _ =>
    }
  }

  lemma {:induction false} GetSound(w: World, name: ChipName, nr: int, depth: nat, limit: nat) returns (d: Deriv)
    requires WorldOk(w) && GetValue(w, name, nr, depth, limit) != Err(Recursion)
    ensures Gets(w, name, nr, d, GetValue(w, name, nr, depth, limit)) && depth + Nesting(d) < limit
    decreases if limit > depth then limit - depth else 0, 1, Source
  {
    hide Find, WorldOk;
    var f := Find(w, name, nr);
    if f.Failed? {
      d := Refused;
    } else if w.sysfs(name, f.sub.name).Err? {
      d := Unread;
    } else if f.expr.None? {
      d := Plain;
    } else {
      var x := EvalSound(w, f.chip, f.expr.value, w.sysfs(name, f.sub.name).v, depth, limit);
      d := Computed(x);
    }
  }

  lemma {:induction false} EvalSound(w: World, chip: Features, e: Expr, val: real, depth: nat, limit: nat)
    returns (d: ExprDeriv)
    requires WorldOk(w) && depth < limit && EvalExpr(w, chip, e, val, depth, limit) != Err(Recursion)
    ensures Evals(w, chip, e, val, d, EvalExpr(w, chip, e, val, depth, limit)) && depth + ExprNesting(d) < limit
    decreases limit - depth, 0, e
  {
    hide Find, WorldOk;
    var r := EvalExpr(w, chip, e, val, depth, limit);
    match e {
      case Val(_) => d := Constant;
      case Source => d := Reading;
      case Var(x) =>
        if LookupName(chip.subfeatures, x).None? {
          d := Unknown;
        } else {
          var g := GetSound(w, chip.chip, LookupName(chip.subfeatures, x).value.number, depth + 1, limit);
          d := ByVar(g);
        }
      case Unary(op, e1) =>
        var a := EvalExpr(w, chip, e1, val, depth, limit);
        var x := EvalSound(w, chip, e1, val, depth, limit);
        d := Un(x, a);
        if a.Ok? { UnaryExact(w, op, a.v, r); }
      case Binary(op, e1, e2) =>
        var a1 := EvalExpr(w, chip, e1, val, depth, limit);
        var x1 := EvalSound(w, chip, e1, val, depth, limit);
        if a1.Err? {
          d := LeftFails(x1);
        } else {
          var a2 := EvalExpr(w, chip, e2, val, depth, limit);
          var x2 := EvalSound(w, chip, e2, val, depth, limit);
          d := Bin(x1, a1.v, x2, a2);
          if a2.Ok? { BinaryExact(op, a1.v, a2.v, r); }
        }
    }
  }

  /** The evaluator gives a result other than the recursion error exactly when it follows from the
      configuration by references nested less deep than the limit: values and errors alike. */
  lemma GetExactly(w: World, name: ChipName, nr: int, limit: nat, r: Result)
    requires WorldOk(w) && r != Err(Recursion)
    ensures GetValue(w, name, nr, 0, limit) == r
       <==> exists d :: Gets(w, name, nr, d, r) && Nesting(d) < limit
  {
    if GetValue(w, name, nr, 0, limit) == r {
      var d := GetSound(w, name, nr, 0, limit);
    }
    if d :| Gets(w, name, nr, d, r) && Nesting(d) < limit {
      GetComplete(w, name, nr, d, r, 0, limit);
    }
  }

  /** At the library's own limit references may nest seven deep. */
  lemma ReadsExactly(w: World, name: ChipName, nr: int, r: Result)
    requires WorldOk(w) && r != Err(Recursion)
    ensures GetValue(w, name, nr, 0, DEPTH_MAX) == r
       <==> exists d :: Gets(w, name, nr, d, r) && Nesting(d) <= 7
  {
    GetExactly(w, name, nr, DEPTH_MAX, r);
  }

  // ------------------------------------------------------------------ the limit only cuts off

  lemma {:induction false} GetStable(w: World, name: ChipName, nr: int, depth: nat, limit: nat, more: nat)
    requires WorldOk(w) && limit <= more && GetValue(w, name, nr, depth, limit) != Err(Recursion)
    ensures GetValue(w, name, nr, depth, more) == GetValue(w, name, nr, depth, limit)
    decreases if limit > depth then limit - depth else 0, 1, Source
  {
    hide Find, WorldOk;
    var f := Find(w, name, nr);
    if f.Found? && f.expr.Some? && w.sysfs(name, f.sub.name).Ok? {
      EvalStable(w, f.chip, f.expr.value, w.sysfs(name, f.sub.name).v, depth, limit, more);
    }
  }

  lemma {:induction false} EvalStable(w: World, chip: Features, e: Expr, val: real, depth: nat, limit: nat, more: nat)
    requires WorldOk(w) && depth < limit <= more && EvalExpr(w, chip, e, val, depth, limit) != Err(Recursion)
    ensures EvalExpr(w, chip, e, val, depth, more) == EvalExpr(w, chip, e, val, depth, limit)
    decreases limit - depth, 0, e
  {
    hide Find, WorldOk;
    match e {
      case Val(_) =>
      case Source =>
      case Var(x) =>
        if LookupName(chip.subfeatures, x).Some? {
          GetStable(w, chip.chip, LookupName(chip.subfeatures, x).value.number, depth + 1, limit, more);
        }
      case Unary(_, e1) => EvalStable(w, chip, e1, val, depth, limit, more);
      case Binary(_, e1, e2) =>
        EvalStable(w, chip, e1, val, depth, limit, more);
        if EvalExpr(w, chip, e1, val, depth, limit).Ok? {
          EvalStable(w, chip, e2, val, depth, limit, more);
        }
    }
  }

  // ------------------------------------------------------------------ cycles

  /** References go to subfeatures of strictly lower rank. */
  ghost predicate Ranked(w: World, rank: (ChipName, int) -> nat)
    requires WorldOk(w)
  {
    forall name, nr :: Find(w, name, nr).Found? && Find(w, name, nr).expr.Some? ==>
      Below(Find(w, name, nr).chip, Find(w, name, nr).expr.value, rank, rank(name, nr))
  }

  predicate Below(chip: Features, e: Expr, rank: (ChipName, int) -> nat, bound: nat) {
    match e
    case Val(_) => true
    case Source => true
    case Var(x) =>
      LookupName(chip.subfeatures, x).Some? ==> rank(chip.chip, LookupName(chip.subfeatures, x).value.number) < bound
    case Unary(_, e1) => Below(chip, e1, rank, bound)
    case Binary(_, e1, e2) => Below(chip, e1, rank, bound) && Below(chip, e2, rank, bound)
  }

  /** The depth of a sysfs error code is its own business: reading a file is not recursion. */
  ghost predicate SysfsOk(w: World) {
    forall name, sub :: w.sysfs(name, sub) != Err(Recursion)
  }

  lemma {:induction false} GetRanked(w: World, rank: (ChipName, int) -> nat, name: ChipName, nr: int, depth: nat, limit: nat)
    requires WorldOk(w) && Ranked(w, rank) && SysfsOk(w) && depth + rank(name, nr) < limit
    ensures GetValue(w, name, nr, depth, limit) != Err(Recursion)
    decreases limit - depth, 1, Source
  {
    FindNotRecursion(w, name, nr);
    hide Find, WorldOk;
    var f := Find(w, name, nr);
    if f.Found? && f.expr.Some? && w.sysfs(name, f.sub.name).Ok? {
      EvalRanked(w, rank, f.chip, f.expr.value, w.sysfs(name, f.sub.name).v, rank(name, nr), depth, limit);
    }
  }

  lemma FindNotRecursion(w: World, name: ChipName, nr: int)
    requires WorldOk(w)
    ensures Find(w, name, nr).Failed? ==> Find(w, name, nr).error != Recursion
  {
  }

  lemma {:induction false} EvalRanked(w: World, rank: (ChipName, int) -> nat, chip: Features, e: Expr, val: real,
                                      bound: nat, depth: nat, limit: nat)
    requires WorldOk(w) && Ranked(w, rank) && SysfsOk(w)
    requires Below(chip, e, rank, bound) && depth + bound < limit
    ensures EvalExpr(w, chip, e, val, depth, limit) != Err(Recursion)
    decreases limit - depth, 0, e
  {
    hide Find, WorldOk, Ranked, SysfsOk;
    match e {
      case Val(_) =>
      case Source =>
      case Var(x) =>
        if LookupName(chip.subfeatures, x).Some? {
          GetRanked(w, rank, chip.chip, LookupName(chip.subfeatures, x).value.number, depth + 1, limit);
        }
      case Unary(_, e1) => EvalRanked(w, rank, chip, e1, val, bound, depth, limit);
      case Binary(_, e1, e2) =>
        EvalRanked(w, rank, chip, e1, val, bound, depth, limit);
        EvalRanked(w, rank, chip, e2, val, bound, depth, limit);
    }
  }

  /** A configuration without cycles whose references nest at most `DEPTH_MAX - 1` deep is never cut off. */
  lemma AcyclicNotCutOff(w: World, rank: (ChipName, int) -> nat, name: ChipName, nr: int)
    requires WorldOk(w) && Ranked(w, rank) && SysfsOk(w) && rank(name, nr) < DEPTH_MAX
    ensures GetValue(w, name, nr, 0, DEPTH_MAX) != Err(Recursion)
  {
    GetRanked(w, rank, name, nr, 0, DEPTH_MAX);
  }

  // ------------------------------------------------------------------ references without end

  /** Some subfeatures of some chips. */
  type Refs = (ChipName, int) -> bool

  /** Evaluating the expression comes to a reference into `refs`: what is evaluated before it has a value. */
  ghost predicate Into(w: World, chip: Features, e: Expr, val: real, refs: Refs)
    requires WorldOk(w)
  {
    match e
    case Val(_) => false
    case Source => false
    case Var(x) =>
      LookupName(chip.subfeatures, x).Some? && refs(chip.chip, LookupName(chip.subfeatures, x).value.number)
    case Unary(_, e1) => Into(w, chip, e1, val, refs)
    case Binary(_, e1, e2) =>
      Into(w, chip, e1, val, refs) || (HasValue(w, chip, e1, val) && Into(w, chip, e2, val, refs))
  }

  ghost predicate HasValue(w: World, chip: Features, e: Expr, val: real)
    requires WorldOk(w)
  {
    exists d, v :: Evals(w, chip, e, val, d, Ok(v))
  }

  /** Reading the subfeature comes to a reference into `refs`. */
  ghost predicate Leads(w: World, name: ChipName, nr: int, refs: Refs)
    requires WorldOk(w)
  {
    var f := Find(w, name, nr);
    && f.Found? && f.expr.Some? && w.sysfs(name, f.sub.name).Ok?
    && Into(w, f.chip, f.expr.value, w.sysfs(name, f.sub.name).v, refs)
  }

  /** Every one of the subfeatures leads to another of them. */
  ghost predicate Endless(w: World, refs: Refs)
    requires WorldOk(w)
  {
    forall name, nr :: refs(name, nr) ==> Leads(w, name, nr, refs)
  }

  lemma {:induction false} EndlessCutOff(w: World, refs: Refs, name: ChipName, nr: int, depth: nat, limit: nat)
    requires WorldOk(w) && Endless(w, refs) && refs(name, nr)
    ensures GetValue(w, name, nr, depth, limit) == Err(Recursion)
    decreases if limit > depth then limit - depth else 0, 1, Source
  {
    hide Find, WorldOk, Into;
    assert Leads(w, name, nr, refs);
    if depth < limit {
      var f := Find(w, name, nr);
      IntoCutOff(w, f.chip, f.expr.value, w.sysfs(name, f.sub.name).v, refs, depth, limit);
    }
  }

  lemma {:induction false} IntoCutOff(w: World, chip: Features, e: Expr, val: real, refs: Refs, depth: nat, limit: nat)
    requires WorldOk(w) && Endless(w, refs) && Into(w, chip, e, val, refs) && depth < limit
    ensures EvalExpr(w, chip, e, val, depth, limit) == Err(Recursion)
    decreases limit - depth, 0, e
  {
    hide Find, WorldOk, Endless, HasValue;
    match e {
      case Var(x) =>
        EndlessCutOff(w, refs, chip.chip, LookupName(chip.subfeatures, x).value.number, depth + 1, limit);
      case Unary(_, e1) => IntoCutOff(w, chip, e1, val, refs, depth, limit);
      case Binary(_, e1, e2) =>
        if Into(w, chip, e1, val, refs) {
          IntoCutOff(w, chip, e1, val, refs, depth, limit);
        } else {
          ValueOrCutOff(w, chip, e1, val, depth, limit);
          IntoCutOff(w, chip, e2, val, refs, depth, limit);
        }
    }
  }

  /** An expression that has a value evaluates to a value or is cut off. */
  lemma ValueOrCutOff(w: World, chip: Features, e: Expr, val: real, depth: nat, limit: nat)
    requires WorldOk(w) && HasValue(w, chip, e, val) && depth < limit
    ensures var r := EvalExpr(w, chip, e, val, depth, limit); r.Ok? || r == Err(Recursion)
  {
    hide EvalExpr, Evals, WorldOk;
    if EvalExpr(w, chip, e, val, depth, limit) != Err(Recursion) {
      var d, v :| Evals(w, chip, e, val, d, Ok(v));
      var more := limit + ExprNesting(d);
      EvalStable(w, chip, e, val, depth, limit, more);
      EvalComplete(w, chip, e, val, d, Ok(v), depth, more);
    }
  }

  /** Only the distance to the limit counts. */
  lemma {:induction false} GetShift(w: World, name: ChipName, nr: int, depth: nat, limit: nat)
    requires WorldOk(w)
    ensures GetValue(w, name, nr, depth + 1, limit + 1) == GetValue(w, name, nr, depth, limit)
    decreases if limit > depth then limit - depth else 0, 1, Source
  {
    hide Find, WorldOk;
    var f := Find(w, name, nr);
    if depth < limit && f.Found? && f.expr.Some? && w.sysfs(name, f.sub.name).Ok? {
      EvalShift(w, f.chip, f.expr.value, w.sysfs(name, f.sub.name).v, depth, limit);
    }
  }

  lemma {:induction false} EvalShift(w: World, chip: Features, e: Expr, val: real, depth: nat, limit: nat)
    requires WorldOk(w) && depth < limit
    ensures EvalExpr(w, chip, e, val, depth + 1, limit + 1) == EvalExpr(w, chip, e, val, depth, limit)
    decreases limit - depth, 0, e
  {
    hide Find, WorldOk;
    match e {
      case Val(_) =>
      case Source =>
      case Var(x) =>
        if LookupName(chip.subfeatures, x).Some? {
          GetShift(w, chip.chip, LookupName(chip.subfeatures, x).value.number, depth + 1, limit);
        }
      case Unary(_, e1) => EvalShift(w, chip, e1, val, depth, limit);
      case Binary(_, e1, e2) =>
        EvalShift(w, chip, e1, val, depth, limit);
        EvalShift(w, chip, e2, val, depth, limit);
    }
  }

  ghost predicate AlwaysCutOff(w: World, name: ChipName, nr: int)
    requires WorldOk(w)
  {
    forall limit: nat :: GetValue(w, name, nr, 0, limit) == Err(Recursion)
  }

  ghost predicate ExprCutOff(w: World, chip: Features, e: Expr, val: real)
    requires WorldOk(w)
  {
    forall limit: nat :: limit > 0 ==> EvalExpr(w, chip, e, val, 0, limit) == Err(Recursion)
  }

  /** What is cut off at every limit leads to something that is. */
  lemma CutOffLeads(w: World, name: ChipName, nr: int)
    requires WorldOk(w) && SysfsOk(w) && AlwaysCutOff(w, name, nr)
    ensures Leads(w, name, nr, (n, k) => AlwaysCutOff(w, n, k))
  {
    FindNotRecursion(w, name, nr);
    hide Find, WorldOk, EvalExpr;
    var f := Find(w, name, nr);
    assert GetValue(w, name, nr, 0, 1) == Err(Recursion);
    var val := w.sysfs(name, f.sub.name).v;
    forall limit: nat | limit > 0
      ensures EvalExpr(w, f.chip, f.expr.value, val, 0, limit) == Err(Recursion)
    {
      assert GetValue(w, name, nr, 0, limit) == Err(Recursion);
    }
    ExprCutOffInto(w, f.chip, f.expr.value, val);
  }

  lemma {:induction false} ExprCutOffInto(w: World, chip: Features, e: Expr, val: real)
    requires WorldOk(w) && ExprCutOff(w, chip, e, val)
    ensures Into(w, chip, e, val, (n, k) => AlwaysCutOff(w, n, k))
    decreases e
  {
    hide Find, WorldOk;
    assert EvalExpr(w, chip, e, val, 0, 1) == Err(Recursion);
    match e {
      case Val(_) =>
      case Source =>
      case Var(x) => VarCutOff(w, chip, x, val);
      case Unary(_, e1) =>
        UnaryCutOff(w, chip, e, val);
        ExprCutOffInto(w, chip, e1, val);
      case Binary(_, e1, e2) =>
        BinaryCutOff(w, chip, e, val);
        if ExprCutOff(w, chip, e1, val) {
          ExprCutOffInto(w, chip, e1, val);
        } else {
          ExprCutOffInto(w, chip, e2, val);
        }
    }
  }

  lemma VarCutOff(w: World, chip: Features, x: string, val: real)
    requires WorldOk(w) && ExprCutOff(w, chip, Var(x), val)
    ensures LookupName(chip.subfeatures, x).Some?
    ensures AlwaysCutOff(w, chip.chip, LookupName(chip.subfeatures, x).value.number)
  {
    hide WorldOk, GetValue;
    assert EvalExpr(w, chip, Var(x), val, 0, 1) == Err(Recursion);
    var nr := LookupName(chip.subfeatures, x).value.number;
    forall limit: nat
      ensures GetValue(w, chip.chip, nr, 0, limit) == Err(Recursion)
    {
      assert EvalExpr(w, chip, Var(x), val, 0, limit + 1) == Err(Recursion);
      GetShift(w, chip.chip, nr, 0, limit);
    }
  }

  lemma UnaryCutOff(w: World, chip: Features, e: Expr, val: real)
    requires WorldOk(w) && e.Unary? && ExprCutOff(w, chip, e, val)
    ensures ExprCutOff(w, chip, e.e, val)
  {
    hide WorldOk, GetValue;
    forall limit: nat | limit > 0
      ensures EvalExpr(w, chip, e.e, val, 0, limit) == Err(Recursion)
    {
      assert EvalExpr(w, chip, e, val, 0, limit) == Err(Recursion);
    }
  }

  /** One operand is always cut off, and what is evaluated before it has a value. */
  lemma BinaryCutOff(w: World, chip: Features, e: Expr, val: real)
    requires WorldOk(w) && e.Binary? && ExprCutOff(w, chip, e, val)
    ensures ExprCutOff(w, chip, e.e1, val) || (HasValue(w, chip, e.e1, val) && ExprCutOff(w, chip, e.e2, val))
  {
    hide WorldOk, GetValue, Evals;
    if !ExprCutOff(w, chip, e.e1, val) {
      var l: nat :| l > 0 && EvalExpr(w, chip, e.e1, val, 0, l) != Err(Recursion);
      assert EvalExpr(w, chip, e, val, 0, l) == Err(Recursion);
      var d := EvalSound(w, chip, e.e1, val, 0, l);
      forall limit: nat | limit > 0
        ensures EvalExpr(w, chip, e.e2, val, 0, limit) == Err(Recursion)
      {
        var more := l + limit;
        assert EvalExpr(w, chip, e, val, 0, more) == Err(Recursion);
        EvalStable(w, chip, e.e1, val, 0, l, more);
        if EvalExpr(w, chip, e.e2, val, 0, limit) != Err(Recursion) {
          EvalStable(w, chip, e.e2, val, 0, limit, more);
        }
      }
    }
  }

  /** A subfeature is cut off at every limit if and only if its references never end: it belongs to
      subfeatures each of which leads to another of them. */
  lemma CutOffExactly(w: World, name: ChipName, nr: int)
    requires WorldOk(w) && SysfsOk(w)
    ensures AlwaysCutOff(w, name, nr) <==> exists refs: Refs :: Endless(w, refs) && refs(name, nr)
  {
    hide WorldOk, SysfsOk, Leads;
    if AlwaysCutOff(w, name, nr) {
      var refs: Refs := (n, k) => AlwaysCutOff(w, n, k);
      forall n, k | refs(n, k)
        ensures Leads(w, n, k, refs)
      {
        CutOffLeads(w, n, k);
      }
      assert Endless(w, refs) && refs(name, nr);
    }
    if refs: Refs :| Endless(w, refs) && refs(name, nr) {
      forall limit: nat
        ensures GetValue(w, name, nr, 0, limit) == Err(Recursion)
      {
        EndlessCutOff(w, refs, name, nr, 0, limit);
      }
    }
  }

  lemma {:induction false} IntoMore(w: World, chip: Features, e: Expr, val: real, a: Refs, b: Refs)
    requires WorldOk(w) && Into(w, chip, e, val, a) && forall n, k :: a(n, k) ==> b(n, k)
    ensures Into(w, chip, e, val, b)
    decreases e
  {
    hide WorldOk, HasValue;
    match e {
      case Var(_) =>
      case Unary(_, e1) => IntoMore(w, chip, e1, val, a, b);
      case Binary(_, e1, e2) =>
        if Into(w, chip, e1, val, a) {
          IntoMore(w, chip, e1, val, a, b);
        } else {
          IntoMore(w, chip, e2, val, a, b);
        }
    }
  }

  /** A cycle of any length: every subfeature on it leads to the next one, and all are cut off at every
      limit. */
  lemma CycleCutOff(w: World, cycle: seq<(ChipName, int)>, i: nat)
    requires WorldOk(w) && i < |cycle|
    requires forall k :: 0 <= k < |cycle| ==>
      Leads(w, cycle[k].0, cycle[k].1, (n, m) => (n, m) == cycle[if k + 1 < |cycle| then k + 1 else 0])
    ensures AlwaysCutOff(w, cycle[i].0, cycle[i].1)
  {
    hide WorldOk, Into;
    var refs: Refs := (n, m) => (n, m) in cycle;
    forall n, m | refs(n, m)
      ensures Leads(w, n, m, refs)
    {
      var k :| 0 <= k < |cycle| && cycle[k] == (n, m);
      var next: Refs := (n, m) => (n, m) == cycle[if k + 1 < |cycle| then k + 1 else 0];
      assert Leads(w, cycle[k].0, cycle[k].1, next);
      var f := Find(w, n, m);
      IntoMore(w, f.chip, f.expr.value, w.sysfs(n, f.sub.name).v, next, refs);
    }
    forall limit: nat
      ensures GetValue(w, cycle[i].0, cycle[i].1, 0, limit) == Err(Recursion)
    {
      EndlessCutOff(w, refs, cycle[i].0, cycle[i].1, 0, limit);
    }
  }
}
