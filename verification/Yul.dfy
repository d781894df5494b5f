/**
 The fragment of Yul that the transaction utilities are written in, with its meaning over a word
 memory, and the hand-written bootloader helpers that the generated code calls.
 */
module Yul {
  import opened Wrappers
  import opened Arithmetic
  import opened Words

  /** `mload` as a function of the address; every byte memory gives one. */
  type Memory = Word -> Word

  datatype Outcome<+T> = Done(value: T) | Reverted(message: string) | Stuck

  /** `add`. */
  function AddMod(a: Word, b: Word): Word {
    if a + b < MODULUS then a + b else a + b - MODULUS
  }

  lemma AddModIsMod(a: Word, b: Word)
    ensures AddMod(a, b) == (a + b) % MODULUS
  {
  }

  /** The remainder modulo 2^256, by repeated subtraction. */
  function Wrap(n: nat): Word {
    if n < MODULUS then n else Wrap(n - MODULUS)
  }

  lemma {:induction false} WrapIsMod(n: nat)
    ensures Wrap(n) == n % MODULUS
  {
    if n >= MODULUS {
      WrapIsMod(n - MODULUS);
    }
  }

  lemma AddModIsWrap(a: Word, b: Word)
    ensures AddMod(a, b) == Wrap(a + b)
  {
    AddModIsMod(a, b);
    WrapIsMod(a + b);
  }

  /** Adding a wrapped number to a word. */
  lemma AddWrapped(a: Word, b: nat)
    ensures AddMod(a, Wrap(b)) == Wrap(a + b)
  {
    AddModIsWrap(a, Wrap(b));
    WrapAdd(b, a);
  }

  lemma WrapCancel(a: nat, x: Word, y: nat)
    requires Wrap(a + x) == Wrap(a + y)
    ensures x == Wrap(y)
  {
    WrapIsMod(a + x);
    WrapIsMod(a + y);
    WrapIsMod(y);
    ModCancel(a, x, y);
  }

  lemma {:induction false} WrapAdd(a: nat, b: nat)
    ensures Wrap(Wrap(a) + b) == Wrap(a + b)
  {
    if a >= MODULUS {
      WrapAdd(a - MODULUS, b);
      assert a - MODULUS + b == (a + b) - MODULUS;
    }
  }

  /** `mul`. */
  function MulMod(a: Word, b: Word): Word {
    MulNonNegative(a, b);
    Wrap(a * b)
  }

  /** `sub`. */
  function SubMod(a: Word, b: Word): Word {
    if a >= b then a - b else a - b + MODULUS
  }

  // ----- helpers of the bootloader -----

  function SafeAdd(x: Word, y: Word, message: string): Outcome<Word> {
    var ret := AddMod(x, y);
    if ret < x then Reverted(message) else Done(ret)
  }

  function SafeMul(x: Word, y: Word, message: string): Outcome<Word> {
    if y == 0 then Done(0)
    else
      var ret: Word := (x * y) % MODULUS;
      if ret / y != x then Reverted(message) else Done(ret)
  }

  /** The byte length rounded up to whole words; the inner addition is unchecked. */
  function LengthRoundedByWords(len: Word): Outcome<Word> {
    SafeMul(AddMod(len, 31) / 32, 32, "xv")
  }

  /** Masking with the low `z` bytes is the remainder by `256^z`. */
  function ValidateBytes(m: Memory, bytesPtr: Word): Outcome<Word> {
    var length := m(bytesPtr);
    var lastWordBytes := length % 32;
    if lastWordBytes == 0 then
      match SafeAdd(length, 32, "pol")
      case Done(size) => SafeAdd(bytesPtr, size, "aop")
      case Reverted(e) => Reverted(e)
      case Stuck => Stuck
    else
      match LengthRoundedByWords(length)
      case Reverted(e) => Reverted(e)
      case Stuck => Stuck
      case Done(fullLen) => ValidatePadded(m, bytesPtr, fullLen, 32 - lastWordBytes)
  }

  /** The branch of `validateBytes` for a last word that ends in `zeroBytes` padding bytes. */
  function ValidatePadded(m: Memory, bytesPtr: Word, fullLen: Word, zeroBytes: nat): Outcome<Word> {
    match SafeAdd(32, fullLen, "dza")
    case Reverted(e) => Reverted(e)
    case Stuck => Stuck
    case Done(size) =>
      match SafeAdd(bytesPtr, size, "dzp")
      case Reverted(e) => Reverted(e)
      case Stuck => Stuck
      case Done(bytesEnd) =>
        if m(SubMod(bytesEnd, 32)) % Pow256(zeroBytes) != 0 then Reverted("bad bytes encoding")
        else Done(bytesEnd)
  }

  function ValidateBytes32Array(m: Memory, arrayPtr: Word): Outcome<Word> {
    match SafeMul(m(arrayPtr), 32, "lop")
    case Reverted(e) => Reverted(e)
    case Stuck => Stuck
    case Done(content) =>
      match SafeAdd(32, content, "asa")
      case Reverted(e) => Reverted(e)
      case Stuck => Stuck
      case Done(size) => SafeAdd(arrayPtr, size, "sp")
  }

  function Flag(b: bool): Word {
    if b then 1 else 0
  }

  const TWO_POW_32: nat := 0x1_00000000
  const TWO_POW_128: nat := 0x1_00000000_00000000_00000000_00000000
  const TWO_POW_160: nat := 0x1_00000000_00000000_00000000_00000000_00000000

  const HELPERS: set<string> :=
    {"validateAddress", "validateUint32", "validateUint128", "validateBytes", "validateBytes32Array", "lengthToWords"}

  function Helper(f: string, m: Memory, arg: Word): Outcome<Word> {
    if f == "validateAddress" then Done(Flag(arg < TWO_POW_160))
    else if f == "validateUint32" then Done(Flag(arg < TWO_POW_32))
    else if f == "validateUint128" then Done(Flag(arg < TWO_POW_128))
    else if f == "validateBytes" then ValidateBytes(m, arg)
    else if f == "validateBytes32Array" then ValidateBytes32Array(m, arg)
    else if f == "lengthToWords" then LengthRoundedByWords(arg)
    else Stuck
  }

  // ----- expressions, statements, functions -----

  datatype Expr =
    | Lit(n: nat)
    | Var(name: string)
    | MLoad(ptr: Expr)
    | Add(left: Expr, right: Expr)
    | Mul(left: Expr, right: Expr)
    | Eq(left: Expr, right: Expr)
    | IsZero(arg: Expr)
    | Call(f: string, arg: Expr)

  datatype Stmt =
    | Let(name: string, rhs: Expr)
    | Set(name: string, rhs: Expr)
    | IfError(cond: Expr, message: string)  // if cond { assertionError(message) }

  /** A function of the parameter `innerTxDataOffset` with the result variable `ret`. */
  datatype Function = Function(name: string, body: seq<Stmt>)

  type Program = seq<Function>

  type Env = map<string, Word>

  const OFFSET := "innerTxDataOffset"

  function FindFunction(p: Program, name: string): (r: Option<Function>)
    ensures r.Some? ==> r.value in p && r.value.name == name
  {
    if p == [] then None
    else if p[0].name == name then Some(p[0])
    else FindFunction(p[1..], name)
  }

  /** Evaluation; `depth` bounds the nesting of calls and running out of it is `Stuck`. */
  function Eval(p: Program, m: Memory, depth: nat, env: Env, e: Expr): Outcome<Word>
    decreases depth, e
  {
    match e
    case Lit(n) => Done(Wrap(n))
    case Var(x) => if x in env then Done(env[x]) else Stuck
    case MLoad(ptr) =>
      (match Eval(p, m, depth, env, ptr)
       case Done(v) => Done(m(v))
       case o => o)
    case IsZero(a) =>
      (match Eval(p, m, depth, env, a)
       case Done(v) => Done(Flag(v == 0))
       case o => o)
    case Add(a, b) =>
      (match (Eval(p, m, depth, env, a), Eval(p, m, depth, env, b))
       case (Done(v), Done(w)) => Done(AddMod(v, w))
       case (Done(_), o) => o
       case (o, _) => o)
    case Mul(a, b) =>
      (match (Eval(p, m, depth, env, a), Eval(p, m, depth, env, b))
       case (Done(v), Done(w)) => Done(MulMod(v, w))
       case (Done(_), o) => o
       case (o, _) => o)
    case Eq(a, b) =>
      (match (Eval(p, m, depth, env, a), Eval(p, m, depth, env, b))
       case (Done(v), Done(w)) => Done(Flag(v == w))
       case (Done(_), o) => o
       case (o, _) => o)
    case Call(f, a) =>
      (match Eval(p, m, depth, env, a)
       case Done(v) =>
         if f in HELPERS then Helper(f, m, v)
         else if depth == 0 then Stuck
         else Run(p, m, depth - 1, f, v)
       case o => o)
  }

  function Exec(p: Program, m: Memory, depth: nat, env: Env, body: seq<Stmt>): Outcome<Env>
    decreases depth, body
  {
    if body == [] then Done(env)
    else match body[0]
      case Let(x, rhs) =>
        (match Eval(p, m, depth, env, rhs)
         case Done(v) => Exec(p, m, depth, env[x := v], body[1..])
         case Reverted(e) => Reverted(e)
         case Stuck => Stuck)
      case Set(x, rhs) =>
        (match Eval(p, m, depth, env, rhs)
         case Done(v) => Exec(p, m, depth, env[x := v], body[1..])
         case Reverted(e) => Reverted(e)
         case Stuck => Stuck)
      case IfError(cond, message) =>
        (match Eval(p, m, depth, env, cond)
         case Done(v) => if v != 0 then Reverted(message) else Exec(p, m, depth, env, body[1..])
         case Reverted(e) => Reverted(e)
         case Stuck => Stuck)
  }

  /** Calling `f` with a word. */
  function Run(p: Program, m: Memory, depth: nat, f: string, arg: Word): Outcome<Word>
    decreases depth
  {
    match FindFunction(p, f)
    case None => Stuck
    case Some(def) =>
      match Exec(p, m, depth, map[OFFSET := arg, "ret" := 0], def.body)
      case Done(env) => if "ret" in env then Done(env["ret"]) else Stuck
      case Reverted(e) => Reverted(e)
      case Stuck => Stuck
  }

  lemma {:induction false} ExecConcat(p: Program, m: Memory, depth: nat, env: Env, a: seq<Stmt>, b: seq<Stmt>)
    ensures Exec(p, m, depth, env, a + b) ==
      match Exec(p, m, depth, env, a)
      case Done(env') => Exec(p, m, depth, env', b)
      case Reverted(e) => Reverted(e)
      case Stuck => Stuck
    decreases a
  {
    if a == [] {
      assert a + b == b;
    } else {
      assert (a + b)[0] == a[0] && (a + b)[1..] == a[1..] + b;
      match a[0]
      case Let(x, rhs) =>
        var v := Eval(p, m, depth, env, rhs);
        if v.Done? { ExecConcat(p, m, depth, env[x := v.value], a[1..], b); }
      case Set(x, rhs) =>
        var v := Eval(p, m, depth, env, rhs);
        if v.Done? { ExecConcat(p, m, depth, env[x := v.value], a[1..], b); }
      case IfError(_, _) =>
        ExecConcat(p, m, depth, env, a[1..], b);
    }
  }

  ghost predicate DistinctNames(p: Program) {
    forall i, j :: 0 <= i < j < |p| ==> p[i].name != p[j].name
  }

  lemma {:induction false} FindByName(p: Program, def: Function)
    requires DistinctNames(p) && def in p
    ensures FindFunction(p, def.name) == Some(def)
  {
    if p[0] != def {
      assert def in p[1..];
      var i :| 0 <= i < |p[1..]| && p[1..][i] == def;
      assert p[i + 1].name != p[0].name;
      FindByName(p[1..], def);
    }
  }
}
