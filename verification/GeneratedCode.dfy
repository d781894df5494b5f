/**
 What the generated transaction utilities compute, for every field table and every memory: each
 accessor's meaning, the meaning of the length function, and when the validator accepts.
 */
module GeneratedCode {
  import opened Wrappers
  import opened Words
  import opened Yul
  import opened AbiBytes
  import opened TransactionUtils

  /** Where the pointer in word `k` of the head leads. */
  function PtrAt(m: Memory, off: Word, k: nat): Word {
    AddMod(off, m(WordAt(off, k)))
  }

  function Bound(t: FixedType): nat {
    match t
    case Address => TWO_POW_160
    case Uint256 => MODULUS
    case Uint128 => TWO_POW_128
    case Uint32 => TWO_POW_32
  }

  /** A Yul compiler accepts the program only when no name is defined twice. */
  ghost predicate Compiles(slots: seq<Slot>) {
    DistinctNames(Generated(slots))
  }

  /** The program defines the accessors of every word of the head, each under its own name. */
  ghost predicate Linked(p: Program, slots: seq<Slot>) {
    forall k, f :: 0 <= k < |slots| && f in SlotFunctions(slots[k], 32 * k) ==> FindFunction(p, f.name) == Some(f)
  }

  // ----- finding the accessors -----

  lemma AccessorsStep(slots: seq<Slot>, n: nat, before: Program, here: Program, after: Program)
    requires n < |slots| && before == Accessors(slots[..n]) && here == SlotFunctions(slots[n], 32 * n) && after == Accessors(slots[..n + 1])
    ensures after == before + here
  {
    assert slots[..n + 1][..n] == slots[..n];
  }

  lemma {:induction false} AccessorsPrefix(slots: seq<Slot>, n: nat)
    requires n <= |slots|
    ensures Accessors(slots[..n]) <= Accessors(slots)
    decreases |slots| - n
  {
    if n < |slots| {
      AccessorsPrefix(slots, n + 1);
      assert slots[..n + 1][..n] == slots[..n];
    } else {
      assert slots[..n] == slots;
    }
  }

  lemma InMiddle(f: Function, before: Program, here: Program, upto: Program, all: Program)
    requires f in here && upto == before + here && upto <= all
    ensures f in all
  {
    assert f in upto;
  }

  lemma AccessorsWithin(slots: seq<Slot>, k: nat, own: Program, all: Program) returns (before: Program, upto: Program)
    requires k < |slots| && own == SlotFunctions(slots[k], 32 * k) && all == Accessors(slots)
    ensures upto == before + own && upto <= all
  {
    before, upto := Accessors(slots[..k]), Accessors(slots[..k + 1]);
    AccessorsStep(slots, k, before, own, upto);
    AccessorsPrefix(slots, k + 1);
  }

  lemma GeneratedIsLinked(slots: seq<Slot>)
    requires Compiles(slots)
    ensures Linked(Generated(slots), slots)
  {
    var p := Generated(slots);
    forall k, f | 0 <= k < |slots| && f in SlotFunctions(slots[k], 32 * k) ensures FindFunction(p, f.name) == Some(f) {
      var own := SlotFunctions(slots[k], 32 * k);
      var before, upto := AccessorsWithin(slots, k, own, Accessors(slots));
      InMiddle(f, before, own, upto, Accessors(slots));
      assert f in p;
      FindByName(p, f);
    }
  }

  lemma FindLast(slots: seq<Slot>)
    requires Compiles(slots)
    ensures FindFunction(Generated(slots), "validateAbiEncoding")
         == Some(Validator(FixedChecks(slots), 32 * |slots|, Dynamics(slots)))
    ensures FindFunction(Generated(slots), "getDataLength") == Some(DataLength(32 * |slots|, Dynamics(slots)))
  {
    var p := Generated(slots);
    var v, d := Validator(FixedChecks(slots), 32 * |slots|, Dynamics(slots)), DataLength(32 * |slots|, Dynamics(slots));
    assert p[|p| - 2] == v && p[|p| - 1] == d;
    assert v in p && d in p;
    FindByName(p, v);
    FindByName(p, d);
  }

  lemma NotHelper(f: string)
    requires |f| > 0 && f[0] == 'g'
    ensures f !in HELPERS
  {
  }

  // ----- accessors -----

  lemma EvalMemPos(p: Program, m: Memory, depth: nat, env: Env, off: Word, k: nat)
    requires OFFSET in env && env[OFFSET] == off
    ensures Eval(p, m, depth, env, MemPosFromOffset(32 * k)) == Done(WordAt(off, k))
  {
    if k > 0 {
      EvalAdd(p, m, depth, env, Var(OFFSET), Lit(32 * k), off, Wrap(32 * k));
      AddWrapped(off, 32 * k);
    }
  }

  lemma ExecSet(p: Program, m: Memory, depth: nat, env: Env, x: string, e: Expr)
    ensures Exec(p, m, depth, env, [Set(x, e)]) ==
      match Eval(p, m, depth, env, e)
      case Done(v) => Done(env[x := v])
      case Reverted(s) => Reverted(s)
      case Stuck => Stuck
  {
    assert [Set(x, e)][1..] == [];
  }

  /** A fixed field's getter returns its word of the head. */
  lemma GetterReturns(p: Program, slots: seq<Slot>, k: nat, m: Memory, depth: nat, off: Word)
    requires Linked(p, slots) && k < |slots| && slots[k].FixedSlot?
    ensures Run(p, m, depth, GetterName(slots[k].name), off) == Done(m(WordAt(off, k)))
  {
    var f := Getter(slots[k].name, 32 * k);
    assert f in SlotFunctions(slots[k], 32 * k);
    var env: Env := map[OFFSET := off, "ret" := 0];
    EvalMemPos(p, m, depth, env, off, k);
    ExecSet(p, m, depth, env, "ret", MLoad(MemPosFromOffset(32 * k)));
  }

  lemma PtrGetterBody(p: Program, m: Memory, depth: nat, env: Env, off: Word, k: nat)
    requires env == map[OFFSET := off, "ret" := 0]
    ensures Exec(p, m, depth, env, [Set("ret", MLoad(MemPosFromOffset(32 * k)))] + [Set("ret", Add(Var(OFFSET), Var("ret")))])
      == Done(env["ret" := PtrAt(m, off, k)])
  {
    var a, b := [Set("ret", MLoad(MemPosFromOffset(32 * k)))], [Set("ret", Add(Var(OFFSET), Var("ret")))];
    var w := m(WordAt(off, k));
    var env' := env["ret" := w];
    EvalMemPos(p, m, depth, env, off, k);
    ExecSet(p, m, depth, env, "ret", MLoad(MemPosFromOffset(32 * k)));
    EvalAdd(p, m, depth, env', Var(OFFSET), Var("ret"), off, w);
    ExecSet(p, m, depth, env', "ret", Add(Var(OFFSET), Var("ret")));
    ExecConcat(p, m, depth, env, a, b);
    assert env'["ret" := PtrAt(m, off, k)] == env["ret" := PtrAt(m, off, k)];
  }

  lemma PtrGetterFound(p: Program, slots: seq<Slot>, k: nat, f: Function)
    requires Linked(p, slots) && k < |slots| && slots[k].DynamicSlot? && f == PtrGetter(slots[k].name, 32 * k)
    ensures FindFunction(p, f.name) == Some(f)
    ensures f.body == [Set("ret", MLoad(MemPosFromOffset(32 * k)))] + [Set("ret", Add(Var(OFFSET), Var("ret")))]
  {
    assert f == SlotFunctions(slots[k], 32 * k)[0];
    assert f in SlotFunctions(slots[k], 32 * k);
  }

  /** A dynamic field's pointer getter returns the address its head word points to. */
  lemma PtrGetterReturns(p: Program, slots: seq<Slot>, k: nat, m: Memory, depth: nat, off: Word)
    requires Linked(p, slots) && k < |slots| && slots[k].DynamicSlot?
    ensures Run(p, m, depth, PtrGetterName(slots[k].name), off) == Done(PtrAt(m, off, k))
  {
    var f := PtrGetter(slots[k].name, 32 * k);
    PtrGetterFound(p, slots, k, f);
    var env: Env := map[OFFSET := off, "ret" := 0];
    PtrGetterBody(p, m, depth, env, off, k);
    RunDone(p, m, depth, f, off, env["ret" := PtrAt(m, off, k)]);
  }

  /** Calling an accessor on the offset. */
  lemma EvalAccessor(p: Program, m: Memory, depth: nat, env: Env, f: string, off: Word)
    requires OFFSET in env && env[OFFSET] == off && depth >= 1
    requires |f| > 0 && f[0] == 'g'
    ensures Eval(p, m, depth, env, Call(f, Var(OFFSET))) == Run(p, m, depth - 1, f, off)
  {
    NotHelper(f);
    assert Eval(p, m, depth, env, Var(OFFSET)) == Done(off);
  }

  lemma ExecLet(p: Program, m: Memory, depth: nat, env: Env, x: string, e: Expr)
    ensures Exec(p, m, depth, env, [Let(x, e)]) ==
      match Eval(p, m, depth, env, e)
      case Done(v) => Done(env[x := v])
      case Reverted(s) => Reverted(s)
      case Stuck => Stuck
  {
    assert [Let(x, e)][1..] == [];
  }

  /** Length in bytes of the padded content that starts at `ptr`. */
  function ContentLength(t: DynamicType, m: Memory, ptr: Word): Word {
    match t
    case Bytes =>
      var n := m(ptr);
      if n + 31 < MODULUS then 32 * WordCount(n) else 0
    case Bytes32Array => Wrap(32 * m(ptr))
  }

  lemma EvalContentLength(p: Program, m: Memory, depth: nat, env: Env, ptr: Word, t: DynamicType)
    requires "ptr" in env && env["ptr"] == ptr
    ensures Eval(p, m, depth, env, BytesLengthGetter("", t).body[1].rhs) == Done(ContentLength(t, m, ptr))
  {
    var load := MLoad(Var("ptr"));
    assert Eval(p, m, depth, env, Var("ptr")) == Done(ptr);
    assert Eval(p, m, depth, env, load) == Done(m(ptr));
    match t
    case Bytes =>
      RoundedExact(m(ptr));
      assert Eval(p, m, depth, env, Call("lengthToWords", load)) == Helper("lengthToWords", m, m(ptr));
    case Bytes32Array =>
      assert Eval(p, m, depth, env, Lit(32)) == Done(32);
  }

  /** A dynamic field's length getter returns the padded length of what its pointer leads to. */
  lemma LengthGetterReturns(p: Program, slots: seq<Slot>, k: nat, m: Memory, depth: nat, off: Word)
    requires Linked(p, slots) && k < |slots| && slots[k].DynamicSlot? && depth >= 1
    ensures Run(p, m, depth, BytesLengthGetterName(slots[k].name), off)
         == Done(ContentLength(slots[k].dynamic, m, PtrAt(m, off, k)))
  {
    var t := slots[k].dynamic;
    var f := BytesLengthGetter(slots[k].name, t);
    assert f == SlotFunctions(slots[k], 32 * k)[1];
    assert f in SlotFunctions(slots[k], 32 * k);
    var env: Env := map[OFFSET := off, "ret" := 0];
    var ptr := PtrAt(m, off, k);
    var a, b := [f.body[0]], [f.body[1]];
    assert f.body == a + b;
    ExecConcat(p, m, depth, env, a, b);
    EvalAccessor(p, m, depth, env, PtrGetterName(slots[k].name), off);
    PtrGetterReturns(p, slots, k, m, depth - 1, off);
    ExecLet(p, m, depth, env, "ptr", f.body[0].rhs);
    EvalContentLength(p, m, depth, env["ptr" := ptr], ptr, t);
    ExecSet(p, m, depth, env["ptr" := ptr], "ret", f.body[1].rhs);
  }

  // ----- the length function -----

  /** `start` plus the content lengths of the dynamic fields among the first `n` words of the head. */
  function ContentSum(slots: seq<Slot>, m: Memory, off: Word, n: nat, start: Word): Word
    requires n <= |slots|
  {
    if n == 0 then start
    else
      var before := ContentSum(slots, m, off, n - 1, start);
      if slots[n - 1].DynamicSlot? then AddMod(before, ContentLength(slots[n - 1].dynamic, m, PtrAt(m, off, n - 1)))
      else before
  }

  lemma PrefixSnoc(slots: seq<Slot>, n: nat)
    requires 1 <= n <= |slots|
    ensures slots[..n] == slots[..n - 1] + [slots[n - 1]]
    ensures Dynamics(slots[..n]) ==
      Dynamics(slots[..n - 1]) + if slots[n - 1].DynamicSlot? then [(slots[n - 1].name, slots[n - 1].dynamic)] else []
    ensures FixedChecks(slots[..n]) == FixedChecks(slots[..n - 1]) + SlotCheck(slots[n - 1])
  {
    assert slots[..n] == slots[..n - 1] + [slots[n - 1]];
    Snoc(slots[..n - 1], slots[n - 1]);
  }

  lemma AddersSnoc(d: seq<(string, DynamicType)>, x: (string, DynamicType))
    ensures LengthAdders(d + [x]) == LengthAdders(d) + [Set("ret", Add(Var("ret"), Call(BytesLengthGetterName(x.0), Var(OFFSET))))]
    ensures DynamicChecks(d + [x]) == DynamicChecks(d) + DynamicCheck(x.0, x.1)
  {
    assert (d + [x])[..|d|] == d;
  }

  lemma EvalAdd(p: Program, m: Memory, depth: nat, env: Env, a: Expr, b: Expr, v: Word, w: Word)
    requires Eval(p, m, depth, env, a) == Done(v) && Eval(p, m, depth, env, b) == Done(w)
    ensures Eval(p, m, depth, env, Add(a, b)) == Done(AddMod(v, w))
  {
  }

  lemma AdderStep(p: Program, slots: seq<Slot>, k: nat, m: Memory, depth: nat, env: Env, off: Word, r: Word)
    requires Linked(p, slots) && k < |slots| && slots[k].DynamicSlot? && depth >= 2
    requires OFFSET in env && env[OFFSET] == off && "ret" in env && env["ret"] == r
    ensures Exec(p, m, depth, env,
                 [Set("ret", Add(Var("ret"), Call(BytesLengthGetterName(slots[k].name), Var(OFFSET))))])
         == Done(env["ret" := AddMod(r, ContentLength(slots[k].dynamic, m, PtrAt(m, off, k)))])
  {
    var f := BytesLengthGetterName(slots[k].name);
    EvalAccessor(p, m, depth, env, f, off);
    LengthGetterReturns(p, slots, k, m, depth - 1, off);
    EvalAdd(p, m, depth, env, Var("ret"), Call(f, Var(OFFSET)), r, ContentLength(slots[k].dynamic, m, PtrAt(m, off, k)));
    ExecSet(p, m, depth, env, "ret", Add(Var("ret"), Call(f, Var(OFFSET))));
  }

  lemma AddersStep(p: Program, slots: seq<Slot>, n: nat, m: Memory, depth: nat, env: Env, off: Word, r: Word)
    requires Linked(p, slots) && 1 <= n <= |slots| && depth >= 2
    requires OFFSET in env && env[OFFSET] == off && "ret" in env && env["ret"] == r
    requires Exec(p, m, depth, env, LengthAdders(Dynamics(slots[..n - 1]))) == Done(env["ret" := ContentSum(slots, m, off, n - 1, r)])
    ensures Exec(p, m, depth, env, LengthAdders(Dynamics(slots[..n]))) == Done(env["ret" := ContentSum(slots, m, off, n, r)])
  {
    PrefixSnoc(slots, n);
    var s, d := slots[n - 1], Dynamics(slots[..n - 1]);
    if s.DynamicSlot? {
      AddersSnoc(d, (s.name, s.dynamic));
      var before, after := ContentSum(slots, m, off, n - 1, r), ContentSum(slots, m, off, n, r);
      var env' := env["ret" := before];
      var last := [Set("ret", Add(Var("ret"), Call(BytesLengthGetterName(s.name), Var(OFFSET))))];
      ExecConcat(p, m, depth, env, LengthAdders(d), last);
      AdderStep(p, slots, n - 1, m, depth, env', off, before);
      assert env'["ret" := after] == env["ret" := after];
    } else {
      assert Dynamics(slots[..n]) == d;
    }
  }

  lemma {:induction false} AddersSum(p: Program, slots: seq<Slot>, n: nat, m: Memory, depth: nat, env: Env, off: Word, r: Word)
    requires Linked(p, slots) && n <= |slots| && depth >= 2
    requires OFFSET in env && env[OFFSET] == off && "ret" in env && env["ret"] == r
    ensures Exec(p, m, depth, env, LengthAdders(Dynamics(slots[..n])))
         == Done(env["ret" := ContentSum(slots, m, off, n, r)])
  {
    if n == 0 {
      assert env["ret" := r] == env;
    } else {
      AddersSum(p, slots, n - 1, m, depth, env, off, r);
      AddersStep(p, slots, n, m, depth, env, off, r);
    }
  }

  /** Calling a function whose body ends normally. */
  lemma RunDone(p: Program, m: Memory, depth: nat, def: Function, arg: Word, env: Env)
    requires FindFunction(p, def.name) == Some(def) && "ret" in env
    requires Exec(p, m, depth, map[OFFSET := arg, "ret" := 0], def.body) == Done(env)
    ensures Run(p, m, depth, def.name, arg) == Done(env["ret"])
  {
  }

  lemma DataLengthBody(p: Program, slots: seq<Slot>, m: Memory, depth: nat, off: Word, env: Env, base: nat)
    requires Linked(p, slots) && depth >= 2
    requires OFFSET in env && env[OFFSET] == off && "ret" in env
    ensures Exec(p, m, depth, env, [Set("ret", Lit(base))] + LengthAdders(Dynamics(slots)))
      == Done(env["ret" := ContentSum(slots, m, off, |slots|, Wrap(base))])
  {
    var w := Wrap(base);
    var sum := ContentSum(slots, m, off, |slots|, w);
    ExecConcat(p, m, depth, env, [Set("ret", Lit(base))], LengthAdders(Dynamics(slots)));
    ExecSet(p, m, depth, env, "ret", Lit(base));
    assert slots[..|slots|] == slots;
    AddersSum(p, slots, |slots|, m, depth, env["ret" := w], off, w);
    assert env["ret" := w]["ret" := sum] == env["ret" := sum];
  }

  lemma DataLengthDef(slots: seq<Slot>, base: nat, def: Function)
    requires base == 32 * |slots| + |Dynamics(slots)| * 32 && def == DataLength(32 * |slots|, Dynamics(slots))
    ensures def.name == "getDataLength" && def.body == [Set("ret", Lit(base))] + LengthAdders(Dynamics(slots))
  {
  }

  /** `getDataLength`: head, one length word per dynamic field, and the padded contents. */
  lemma DataLengthReturns(p: Program, slots: seq<Slot>, m: Memory, depth: nat, off: Word, base: nat)
    requires Linked(p, slots) && depth >= 2 && base == 32 * |slots| + |Dynamics(slots)| * 32
    requires FindFunction(p, "getDataLength") == Some(DataLength(32 * |slots|, Dynamics(slots)))
    ensures Run(p, m, depth, "getDataLength", off) == Done(ContentSum(slots, m, off, |slots|, Wrap(base)))
  {
    var env: Env := map[OFFSET := off, "ret" := 0];
    var def := DataLength(32 * |slots|, Dynamics(slots));
    DataLengthDef(slots, base, def);
    DataLengthBody(p, slots, m, depth, off, env, base);
    RunDone(p, m, depth, def, off, env["ret" := ContentSum(slots, m, off, |slots|, Wrap(base))]);
  }

  // ----- the validator -----

  /** Every fixed field among the first `n` words of the head is in range. */
  ghost predicate FixedInRange(slots: seq<Slot>, m: Memory, off: Word, n: nat)
    requires n <= |slots|
  {
    forall k :: 0 <= k < n && slots[k].FixedSlot? ==> m(WordAt(off, k)) < Bound(slots[k].fixed)
  }

  /**
   Walking the dynamic fields among the first `n` words of the head: each has to start where the
   previous one ended, the first right after the head. The outcome is the end of the last one.
   */
  function DynamicEnd(slots: seq<Slot>, m: Memory, off: Word, n: nat): Outcome<Word>
    requires n <= |slots|
  {
    if n == 0 then Done(WordAt(off, |slots|))
    else
      var before := DynamicEnd(slots, m, off, n - 1);
      var s := slots[n - 1];
      if !before.Done? || s.FixedSlot? then before
      else if PtrAt(m, off, n - 1) != before.value then Reverted("Encoding " + s.name)
      else Validate(s.dynamic == Bytes, m, before.value)
  }

  /** The same walk over abstract pointers and an abstract validator. */
  function Walk(slots: seq<Slot>, ptr: nat -> Word, validate: (bool, Word) -> Outcome<Word>, start: Word, n: nat): Outcome<Word>
    requires n <= |slots|
  {
    if n == 0 then Done(start)
    else
      var before := Walk(slots, ptr, validate, start, n - 1);
      var s := slots[n - 1];
      if !before.Done? || s.FixedSlot? then before
      else if ptr(n - 1) != before.value then Reverted("Encoding " + s.name)
      else validate(s.dynamic == Bytes, before.value)
  }

  lemma {:induction false} DynamicEndIsWalk(slots: seq<Slot>, m: Memory, off: Word, ptr: nat -> Word,
                                            validate: (bool, Word) -> Outcome<Word>, n: nat)
    requires n <= |slots|
    requires forall k: nat :: ptr(k) == PtrAt(m, off, k)
    requires forall b, p :: validate(b, p) == Validate(b, m, p)
    ensures DynamicEnd(slots, m, off, n) == Walk(slots, ptr, validate, WordAt(off, |slots|), n)
  {
    if n > 0 {
      DynamicEndIsWalk(slots, m, off, ptr, validate, n - 1);
      assert ptr(n - 1) == PtrAt(m, off, n - 1);
      var before := DynamicEnd(slots, m, off, n - 1);
      assert before.Done? ==> forall b :: validate(b, before.value) == Validate(b, m, before.value);
    }
  }

  /** Candidate addresses of the fields: a fixed field takes no room behind the head. */
  ghost predicate Positions(slots: seq<Slot>, pos: seq<nat>, start: Word) {
    && |pos| == |slots| + 1 && pos[0] == start
    && forall k {:trigger slots[k]} :: 0 <= k < |slots| && slots[k].FixedSlot? ==> pos[k + 1] == pos[k]
  }

  /** Field `k` is found at `pos[k]` and accepted up to `pos[k + 1]`. */
  ghost predicate LinkedAt(slots: seq<Slot>, ptr: nat -> Word, validate: (bool, Word) -> Outcome<Word>, pos: seq<nat>, k: nat)
    requires k < |slots| && |pos| == |slots| + 1
  {
    slots[k].DynamicSlot? ==>
      pos[k] < MODULUS && pos[k + 1] < MODULUS && ptr(k) == pos[k] && validate(slots[k].dynamic == Bytes, pos[k]) == Done(pos[k + 1])
  }

  lemma {:induction false} WalkForward(slots: seq<Slot>, ptr: nat -> Word, validate: (bool, Word) -> Outcome<Word>,
                                       start: Word, pos: seq<nat>, n: nat)
    requires n <= |slots| && Positions(slots, pos, start)
    requires forall k :: 0 <= k < n ==> LinkedAt(slots, ptr, validate, pos, k)
    ensures pos[n] < MODULUS && Walk(slots, ptr, validate, start, n) == Done(pos[n])
  {
    if n > 0 {
      WalkForward(slots, ptr, validate, start, pos, n - 1);
      assert LinkedAt(slots, ptr, validate, pos, n - 1);
    }
  }

  lemma {:induction false} WalkBackward(slots: seq<Slot>, ptr: nat -> Word, validate: (bool, Word) -> Outcome<Word>,
                                        start: Word, pos: seq<nat>, n: nat)
    requires n <= |slots| && Positions(slots, pos, start) && Walk(slots, ptr, validate, start, n).Done?
    requires forall k ::
      0 <= k < n && slots[k].DynamicSlot? && ptr(k) == pos[k] && validate(slots[k].dynamic == Bytes, ptr(k)).Done? ==>
        validate(slots[k].dynamic == Bytes, ptr(k)).value == pos[k + 1]
    ensures Walk(slots, ptr, validate, start, n) == Done(pos[n])
    ensures forall k :: 0 <= k < n ==> LinkedAt(slots, ptr, validate, pos, k)
  {
    if n > 0 {
      WalkBackward(slots, ptr, validate, start, pos, n - 1);
    }
  }

  /** The variables the checks never assign. */
  ghost predicate Frame(env: Env, off: Word) {
    OFFSET in env && env[OFFSET] == off && "ret" in env && env["ret"] == 0
  }

  lemma LocalNames(name: string)
    ensures name + "Value" != OFFSET && name + "Value" != "ret" && name + "Value" != EXPECTED
    ensures name + "LengthPos" != OFFSET && name + "LengthPos" != "ret" && name + "LengthPos" != EXPECTED
  {
    var a, b := name + "Value", name + "LengthPos";
    assert a[|a| - 1] == 'e' && b[|b| - 1] == 's';
    assert OFFSET[|OFFSET| - 1] == 't' && "ret"[2] == 't' && EXPECTED[|EXPECTED| - 1] == 'r';
  }

  lemma ExecIfError(p: Program, m: Memory, depth: nat, env: Env, c: Expr, message: string)
    ensures Exec(p, m, depth, env, [IfError(c, message)]) ==
      match Eval(p, m, depth, env, c)
      case Done(v) => if v != 0 then Reverted(message) else Done(env)
      case Reverted(s) => Reverted(s)
      case Stuck => Stuck
  {
    assert [IfError(c, message)][1..] == [];
  }

  lemma EvalRangeCheck(p: Program, m: Memory, depth: nat, env: Env, x: string, t: FixedType)
    requires x in env && t != Uint256
    ensures Eval(p, m, depth, env, IsZero(Call(FixedValidator(t), Var(x)))) == Done(Flag(env[x] >= Bound(t)))
  {
    assert Eval(p, m, depth, env, Var(x)) == Done(env[x]);
    var call := Call(FixedValidator(t), Var(x));
    assert FixedValidator(t) in HELPERS;
    assert Eval(p, m, depth, env, call) == Helper(FixedValidator(t), m, env[x]);
  }

  lemma FixedCheckStep(p: Program, slots: seq<Slot>, k: nat, m: Memory, depth: nat, env: Env, off: Word)
    requires Linked(p, slots) && k < |slots| && slots[k].FixedSlot? && slots[k].fixed != Uint256 && depth >= 1
    requires Frame(env, off)
    ensures var s, v := slots[k], m(WordAt(off, k));
      Exec(p, m, depth, env, SlotCheck(s)) ==
      if v < Bound(s.fixed) then Done(env[s.name + "Value" := v]) else Reverted("Encoding " + s.name)
  {
    var s, v := slots[k], m(WordAt(off, k));
    var x, body := s.name + "Value", SlotCheck(s);
    var env' := env[x := v];
    assert body == [body[0]] + [body[1]];
    ExecConcat(p, m, depth, env, [body[0]], [body[1]]);
    EvalAccessor(p, m, depth, env, GetterName(s.name), off);
    GetterReturns(p, slots, k, m, depth - 1, off);
    ExecLet(p, m, depth, env, x, body[0].rhs);
    EvalRangeCheck(p, m, depth, env', x, s.fixed);
    ExecIfError(p, m, depth, env', body[1].cond, body[1].message);
  }

  lemma SlotCheckStep(p: Program, slots: seq<Slot>, k: nat, m: Memory, depth: nat, env: Env, off: Word)
    requires Linked(p, slots) && k < |slots| && depth >= 1 && Frame(env, off)
    ensures var s, o := slots[k], Exec(p, m, depth, env, SlotCheck(slots[k]));
      if s.FixedSlot? && m(WordAt(off, k)) >= Bound(s.fixed) then o.Reverted? else o.Done? && Frame(o.value, off)
  {
    var s := slots[k];
    if s.FixedSlot? && s.fixed != Uint256 {
      FixedCheckStep(p, slots, k, m, depth, env, off);
      LocalNames(s.name);
    }
  }

  lemma RangeStep(slots: seq<Slot>, m: Memory, off: Word, n: nat)
    requires 1 <= n <= |slots|
    ensures FixedInRange(slots, m, off, n) <==>
      FixedInRange(slots, m, off, n - 1) && !(slots[n - 1].FixedSlot? && m(WordAt(off, n - 1)) >= Bound(slots[n - 1].fixed))
  {
  }

  /** Checks end normally, keeping the frame, exactly when `ok`. */
  ghost predicate EndsWell(o: Outcome<Env>, ok: bool, off: Word) {
    if ok then o.Done? && Frame(o.value, off) else o.Reverted?
  }

  lemma ChecksThen(p: Program, m: Memory, depth: nat, env: Env, off: Word, a: seq<Stmt>, b: seq<Stmt>, ok: bool, ok': bool)
    requires EndsWell(Exec(p, m, depth, env, a), ok, off)
    requires Exec(p, m, depth, env, a).Done? ==> EndsWell(Exec(p, m, depth, Exec(p, m, depth, env, a).value, b), ok', off)
    ensures EndsWell(Exec(p, m, depth, env, a + b), ok && ok', off)
  {
    ExecConcat(p, m, depth, env, a, b);
  }

  predicate WordInRange(slots: seq<Slot>, m: Memory, off: Word, k: nat)
    requires k < |slots|
  {
    !(slots[k].FixedSlot? && m(WordAt(off, k)) >= Bound(slots[k].fixed))
  }

  lemma ChecksStep(p: Program, slots: seq<Slot>, n: nat, m: Memory, depth: nat, env: Env, off: Word)
    requires Linked(p, slots) && 1 <= n <= |slots| && depth >= 1
    requires EndsWell(Exec(p, m, depth, env, FixedChecks(slots[..n - 1])), FixedInRange(slots, m, off, n - 1), off)
    ensures EndsWell(Exec(p, m, depth, env, FixedChecks(slots[..n])), FixedInRange(slots, m, off, n), off)
  {
    var checks, check := FixedChecks(slots[..n - 1]), SlotCheck(slots[n - 1]);
    var o := Exec(p, m, depth, env, checks);
    if o.Done? {
      SlotCheckStep(p, slots, n - 1, m, depth, o.value, off);
    }
    ChecksThen(p, m, depth, env, off, checks, check, FixedInRange(slots, m, off, n - 1), WordInRange(slots, m, off, n - 1));
    PrefixSnoc(slots, n);
    RangeStep(slots, m, off, n);
  }

  lemma {:induction false} ChecksOutcome(p: Program, slots: seq<Slot>, n: nat, m: Memory, depth: nat, env: Env, off: Word)
    requires Linked(p, slots) && n <= |slots| && depth >= 1 && Frame(env, off)
    ensures var o := Exec(p, m, depth, env, FixedChecks(slots[..n]));
      if FixedInRange(slots, m, off, n) then o.Done? && Frame(o.value, off) else o.Reverted?
  {
    if n > 0 {
      ChecksOutcome(p, slots, n - 1, m, depth, env, off);
      ChecksStep(p, slots, n, m, depth, env, off);
    }
  }

  lemma NeverStuck(isBytes: bool, m: Memory, ptr: Word)
    ensures !Validate(isBytes, m, ptr).Stuck?
  {
    if isBytes {
      RoundedExact(m(ptr));
    }
  }

  lemma EvalPointerCheck(p: Program, m: Memory, depth: nat, env: Env, x: string)
    requires x in env && EXPECTED in env
    ensures Eval(p, m, depth, env, IsZero(Eq(Var(x), Var(EXPECTED)))) == Done(Flag(env[x] != env[EXPECTED]))
  {
    assert Eval(p, m, depth, env, Var(x)) == Done(env[x]);
    assert Eval(p, m, depth, env, Var(EXPECTED)) == Done(env[EXPECTED]);
    assert Eval(p, m, depth, env, Eq(Var(x), Var(EXPECTED))) == Done(Flag(env[x] == env[EXPECTED]));
  }

  lemma EvalDynamicValidator(p: Program, m: Memory, depth: nat, env: Env, x: string, t: DynamicType)
    requires x in env
    ensures Eval(p, m, depth, env, Call(DynamicValidator(t), Var(x))) == Validate(t == Bytes, m, env[x])
  {
    assert Eval(p, m, depth, env, Var(x)) == Done(env[x]);
    assert DynamicValidator(t) in HELPERS;
  }

  /** The environment after a dynamic field has been accepted. */
  function AfterField(env: Env, name: string, ptr: Word, end: Word): Env {
    env[name + "LengthPos" := ptr][EXPECTED := end]
  }

  lemma DynamicCheckStep(p: Program, slots: seq<Slot>, k: nat, m: Memory, depth: nat, env: Env, off: Word)
    requires Linked(p, slots) && k < |slots| && slots[k].DynamicSlot? && depth >= 1
    requires Frame(env, off) && EXPECTED in env
    ensures var s, ptr := slots[k], PtrAt(m, off, k);
      Exec(p, m, depth, env, DynamicCheck(s.name, s.dynamic)) ==
      if ptr != env[EXPECTED] then Reverted("Encoding " + s.name)
      else match Validate(s.dynamic == Bytes, m, ptr)
        case Done(end) => Done(AfterField(env, s.name, ptr, end))
        case Reverted(e) => Reverted(e)
        case Stuck => Stuck
  {
    var s, ptr := slots[k], PtrAt(m, off, k);
    var x, body := s.name + "LengthPos", DynamicCheck(s.name, s.dynamic);
    var env' := env[x := ptr];
    LocalNames(s.name);
    assert body == [body[0]] + ([body[1]] + [body[2]]);
    ExecConcat(p, m, depth, env, [body[0]], [body[1]] + [body[2]]);
    EvalAccessor(p, m, depth, env, PtrGetterName(s.name), off);
    PtrGetterReturns(p, slots, k, m, depth - 1, off);
    ExecLet(p, m, depth, env, x, body[0].rhs);
    ExecConcat(p, m, depth, env', [body[1]], [body[2]]);
    EvalPointerCheck(p, m, depth, env', x);
    ExecIfError(p, m, depth, env', body[1].cond, body[1].message);
    EvalDynamicValidator(p, m, depth, env', x, s.dynamic);
    ExecSet(p, m, depth, env', EXPECTED, body[2].rhs);
  }

  /** The outcome of the dynamic checks, up to the variables nobody reads again. */
  ghost predicate Tracks(o: Outcome<Env>, end: Outcome<Word>, off: Word) {
    match end
    case Done(e) => o.Done? && Frame(o.value, off) && EXPECTED in o.value && o.value[EXPECTED] == e
    case Reverted(_) => o.Reverted?
    case Stuck => false
  }

  lemma DynamicChecksStep(p: Program, slots: seq<Slot>, n: nat, m: Memory, depth: nat, env: Env, off: Word)
    requires Linked(p, slots) && 1 <= n <= |slots| && depth >= 1
    requires Tracks(Exec(p, m, depth, env, DynamicChecks(Dynamics(slots[..n - 1]))), DynamicEnd(slots, m, off, n - 1), off)
    ensures Tracks(Exec(p, m, depth, env, DynamicChecks(Dynamics(slots[..n]))), DynamicEnd(slots, m, off, n), off)
  {
    PrefixSnoc(slots, n);
    var s, d := slots[n - 1], Dynamics(slots[..n - 1]);
    if s.DynamicSlot? {
      AddersSnoc(d, (s.name, s.dynamic));
      ExecConcat(p, m, depth, env, DynamicChecks(d), DynamicCheck(s.name, s.dynamic));
      var o := Exec(p, m, depth, env, DynamicChecks(d));
      if o.Done? {
        DynamicCheckStep(p, slots, n - 1, m, depth, o.value, off);
        NeverStuck(s.dynamic == Bytes, m, PtrAt(m, off, n - 1));
        LocalNames(s.name);
      }
    } else {
      assert Dynamics(slots[..n]) == d;
    }
  }

  lemma {:induction false} DynamicChecksOutcome(p: Program, slots: seq<Slot>, n: nat, m: Memory, depth: nat, env: Env, off: Word)
    requires Linked(p, slots) && n <= |slots| && depth >= 1
    requires Frame(env, off) && EXPECTED in env && env[EXPECTED] == WordAt(off, |slots|)
    ensures Tracks(Exec(p, m, depth, env, DynamicChecks(Dynamics(slots[..n]))), DynamicEnd(slots, m, off, n), off)
  {
    if n > 0 {
      DynamicChecksOutcome(p, slots, n - 1, m, depth, env, off);
      DynamicChecksStep(p, slots, n, m, depth, env, off);
    }
  }

  lemma ExpectedStart(p: Program, m: Memory, depth: nat, env: Env, off: Word, n: nat)
    requires Frame(env, off)
    ensures Exec(p, m, depth, env, [Let(EXPECTED, Add(Var(OFFSET), Lit(32 * n)))]) == Done(env[EXPECTED := WordAt(off, n)])
  {
    EvalAdd(p, m, depth, env, Var(OFFSET), Lit(32 * n), off, Wrap(32 * n));
    AddWrapped(off, 32 * n);
    ExecLet(p, m, depth, env, EXPECTED, Add(Var(OFFSET), Lit(32 * n)));
  }

  lemma ValidatorBody(p: Program, slots: seq<Slot>, m: Memory, depth: nat, env: Env, off: Word)
    requires Linked(p, slots) && depth >= 1 && Frame(env, off)
    ensures var body := FixedChecks(slots) + [Let(EXPECTED, Add(Var(OFFSET), Lit(32 * |slots|)))] + DynamicChecks(Dynamics(slots));
      var o := Exec(p, m, depth, env, body);
      if FixedInRange(slots, m, off, |slots|) && DynamicEnd(slots, m, off, |slots|).Done?
      then o.Done? && Frame(o.value, off)
      else o.Reverted?
  {
    var n := |slots|;
    assert slots[..n] == slots;
    var a, b, c := FixedChecks(slots), [Let(EXPECTED, Add(Var(OFFSET), Lit(32 * n)))], DynamicChecks(Dynamics(slots));
    ExecConcat(p, m, depth, env, a + b, c);
    ExecConcat(p, m, depth, env, a, b);
    ChecksOutcome(p, slots, n, m, depth, env, off);
    var o := Exec(p, m, depth, env, a);
    if o.Done? {
      ExpectedStart(p, m, depth, o.value, off, n);
      DynamicChecksOutcome(p, slots, n, m, depth, o.value[EXPECTED := WordAt(off, n)], off);
    }
  }

  lemma RunReverts(p: Program, m: Memory, depth: nat, def: Function, arg: Word)
    requires FindFunction(p, def.name) == Some(def)
    requires Exec(p, m, depth, map[OFFSET := arg, "ret" := 0], def.body).Reverted?
    ensures Run(p, m, depth, def.name, arg).Reverted?
  {
  }

  /** The validator accepts exactly when all checks pass; it reverts otherwise. */
  lemma ValidatorOutcome(p: Program, slots: seq<Slot>, m: Memory, depth: nat, off: Word)
    requires Linked(p, slots) && depth >= 1
    requires FindFunction(p, "validateAbiEncoding") == Some(Validator(FixedChecks(slots), 32 * |slots|, Dynamics(slots)))
    ensures var o := Run(p, m, depth, "validateAbiEncoding", off);
      if FixedInRange(slots, m, off, |slots|) && DynamicEnd(slots, m, off, |slots|).Done? then o == Done(0) else o.Reverted?
  {
    var env: Env := map[OFFSET := off, "ret" := 0];
    var def := Validator(FixedChecks(slots), 32 * |slots|, Dynamics(slots));
    ValidatorBody(p, slots, m, depth, env, off);
    var o := Exec(p, m, depth, env, def.body);
    if o.Done? {
      RunDone(p, m, depth, def, off, o.value);
    } else {
      RunReverts(p, m, depth, def, off);
    }
  }
}
