/** The typed expression evaluator of src/gen_query.rs: expression trees over
    an entity's attributes and copyable literals, evaluated against one
    entity, and the `filter` loop that runs a boolean expression over every
    entity of an in-memory table. The generic structs of the source become
    one tree datatype with a type checker; every operator panic (overflow,
    division by zero, an over-wide shift) is `None`. */
module GenQuery {
  import opened Bytes
  import opened DbErrors
  import opened Storable

  // ---------------------------------------------------------------------
  // Types and values

  /** The output types an expression can have: an integer type, `bool`, or
      text. Text stands for both `String` (an attribute) and `&str` (a
      literal, which is `Copy`): the two compare equal exactly when their
      contents do, and no other operator applies to either. */
  datatype EType = TyInt(kind: IntKind) | TyBool | TyStr

  datatype EVal = Int(kind: IntKind, n: int) | Bool(b: bool) | Str(s: string)

  function ValType(v: EVal): EType {
    match v
    case Int(k, _) => TyInt(k)
    case Bool(_) => TyBool
    case Str(_) => TyStr
  }

  /** An integer value lies in its type's range. */
  predicate ValOk(v: EVal) {
    v.Int? ==> v.kind.InRange(v.n)
  }

  /** The operators with an `exec`: `EqOp`, `LOrOp`, `OrOp` and the seven of
      `int_op_impl!`. `NeqOp`, `AndOp`, `XorOp` and the ordering operators
      have none and are not here. */
  datatype Op = Eq | LOr | BitOr | Add | Sub | Mul | Div | Rem | Shl | Shr

  /** A `GenExpr`: a `Copy` literal, an `AttrExpr` (named by the type it
      resolves to), a `BinExpr` with its operator, or an `EqExpr`. */
  datatype Expr =
    | Lit(v: EVal)
    | Attr(t: EType)
    | Bin(op: Op, l: Expr, r: Expr)
    | EqExpr(a: Expr, b: Expr)

  /** `SomeEntity`: an `i64` id and a `String`. */
  datatype SomeEntity = SomeEntity(id: int, foo: string) {
    predicate Valid() {
      I64.InRange(id)
    }
  }

  /** The trait bounds each operator's `BinOp` impl puts on its operand
      types, and its `Output`; `None` where no impl applies. */
  function OpType(op: Op, ta: EType, tb: EType): (r: Option<EType>)
    ensures r.Some? ==> ta == tb || op == LOr
  {
    match op
    case Eq => if ta == tb then Some(TyBool) else None
    case LOr => if ta == TyBool && tb == TyBool then Some(TyBool) else None
    case BitOr => if ta == tb && (ta.TyInt? || ta == TyBool) then Some(ta) else None
    case _ => if ta == tb && ta.TyInt? then Some(ta) else None
  }

  /** The expression's `Output` type, or `None` for a tree the source's
      trait bounds reject. `SomeEntity` resolves attributes of type `i64`
      and `String` only. */
  function TypeOf(e: Expr): Option<EType> {
    match e
    case Lit(v) => if ValOk(v) then Some(ValType(v)) else None
    case Attr(t) => if t == TyInt(I64) || t == TyStr then Some(t) else None
    case Bin(op, l, r) =>
      var tl :- TypeOf(l);
      var tr :- TypeOf(r);
      OpType(op, tl, tr)
    case EqExpr(l, r) =>
      var tl :- TypeOf(l);
      var tr :- TypeOf(r);
      if tl == tr then Some(TyBool) else None
  }

  /** `ExprEntity::id` and `ExprEntity::foo`. */
  function IdAttr(): Expr {
    Attr(TyInt(I64))
  }

  function FooAttr(): Expr {
    Attr(TyStr)
  }

  // ---------------------------------------------------------------------
  // Machine integers

  function Pow2(n: nat): (r: nat)
    ensures r >= 1
  {
    if n == 0 then 1 else 2 * Pow2(n - 1)
  }

  /** The bit width of an integer type. */
  function Bits(k: IntKind): nat {
    8 * k.Width()
  }

  /** The value of type `k` with the same low `Bits(k)` bits as `x`. */
  function Wrap(k: IntKind, x: int): int {
    Reading(k.Width(), k.Signed(), x % Pow256(k.Width()))
  }

  /** Integer `/`: the quotient rounded toward zero. */
  function TDiv(a: int, b: int): int
    requires b != 0
  {
    var q := Abs(a) / Abs(b);
    if (a >= 0) == (b > 0) then q else -q
  }

  /** Integer `%`: the remainder with the sign of the dividend. */
  function TRem(a: int, b: int): int
    requires b != 0
  {
    if a >= 0 then Abs(a) % Abs(b) else -(Abs(a) % Abs(b))
  }

  function Abs(x: int): nat {
    if x >= 0 then x else -x
  }

  /** Bitwise or of the low `n` bits of two naturals. */
  function OrBits(x: nat, y: nat, n: nat): (r: nat)
    ensures r < Pow2(n)
  {
    if n == 0 then 0
    else
      var low := if x % 2 == 1 || y % 2 == 1 then 1 else 0;
      low + 2 * OrBits(x / 2, y / 2, n - 1)
  }

  /** `x + y` and friends when the result fits the type; debug builds panic
      otherwise. */
  function Checked(k: IntKind, x: int): (r: Option<EVal>)
    ensures r.Some? <==> k.InRange(x)
    ensures r.Some? ==> r.value == Int(k, x)
  {
    if k.InRange(x) then Some(Int(k, x)) else None
  }

  /** One arithmetic, shift or or operator on two values of integer type `k`. */
  function ApplyInt(op: Op, k: IntKind, a: int, b: int): (r: Option<EVal>)
    requires op != Eq && op != LOr
    requires k.InRange(a) && k.InRange(b)
    ensures r.Some? ==> r.value.Int? && r.value.kind == k && k.InRange(r.value.n)
  {
    WrapInRange(k, 0);
    match op
    case Add => Checked(k, a + b)
    case Sub => Checked(k, a - b)
    case Mul => Checked(k, a * b)
    case Div => if b == 0 then None else Checked(k, TDiv(a, b))
    case Rem =>
      // `MIN % -1` panics like `MIN / -1`, though the remainder would be 0.
      if b == 0 || !k.InRange(TDiv(a, b)) then None
      else
        TRemBounds(a, b);
        Some(Int(k, TRem(a, b)))
    case Shl =>
      if 0 <= b < Bits(k) then
        WrapInRange(k, a * Pow2(b));
        Some(Int(k, Wrap(k, a * Pow2(b))))
      else None
    case Shr =>
      if 0 <= b < Bits(k) then
        ShrInRange(k, a, b);
        Some(Int(k, a / Pow2(b)))
      else None
    case BitOr =>
      var p := Pow256(k.Width());
      var o := OrBits(a % p, b % p, Bits(k));
      WrapInRange(k, o);
      Some(Int(k, Wrap(k, o)))
  }

  /** `BinOp::exec` of one operator on two evaluated operands (for `||`,
      once the right side has been evaluated). */
  function Apply(op: Op, a: EVal, b: EVal): (r: Option<EVal>)
    requires ValOk(a) && ValOk(b)
    requires OpType(op, ValType(a), ValType(b)).Some?
    ensures r.Some? ==> ValOk(r.value) && ValType(r.value) == OpType(op, ValType(a), ValType(b)).value
  {
    match op
    case Eq => Some(Bool(a == b))
    case LOr => Some(Bool(a.b || b.b))
    case BitOr => if a.Bool? then Some(Bool(a.b || b.b)) else ApplyInt(op, a.kind, a.n, b.n)
    case Add | Sub | Mul | Div | Rem | Shl | Shr => ApplyInt(op, a.kind, a.n, b.n)
  }

  /** `GenExpr::exec` against one entity: a literal is itself, an attribute
      is the entity's field of that type, `||` does not evaluate its right
      side once the left is `true`, every other operator evaluates both
      sides, left first. */
  function Eval(e: Expr, row: SomeEntity): (r: Option<EVal>)
    requires TypeOf(e).Some? && row.Valid()
    ensures r.Some? ==> ValOk(r.value) && ValType(r.value) == TypeOf(e).value
  {
    match e
    case Lit(v) => Some(v)
    case Attr(t) => if t == TyStr then Some(Str(row.foo)) else Some(Int(I64, row.id))
    case Bin(op, l, r) =>
      var a :- Eval(l, row);
      if op == LOr then
        if a.b then Some(Bool(true))
        else
          var b :- Eval(r, row);
          Some(Bool(b.b))
      else
        var b :- Eval(r, row);
        Apply(op, a, b)
    case EqExpr(l, r) =>
      var a :- Eval(l, row);
      var b :- Eval(r, row);
      Some(Bool(a == b))
  }

  // ---------------------------------------------------------------------
  // Properties of the operators

  lemma WrapInRange(k: IntKind, x: int)
    ensures k.InRange(Wrap(k, x))
    ensures Wrap(k, x) % Pow256(k.Width()) == x % Pow256(k.Width())
  {
    ReadingAt(k.Width(), k.Signed(), x % Pow256(k.Width()));
    k.Bounds();
  }

  /** Wrapping keeps the low bits of `x` and nothing else: a value already of
      the type is kept as it is. */
  lemma WrapKeepsInRange(k: IntKind, x: int)
    requires k.InRange(x)
    ensures Wrap(k, x) == x
  {
    k.Bounds();
    WrapKeepsAt(k.Width(), k.Signed(), x);
  }

  /** `WrapKeepsInRange` for a width and a signedness, with the type left out. */
  lemma WrapKeepsAt(w: nat, signed: bool, x: int)
    requires w > 0
    requires signed ==> -(Pow256(w) / 2) <= x <= Pow256(w) / 2 - 1
    requires !signed ==> 0 <= x <= Pow256(w) - 1
    ensures Reading(w, signed, x % Pow256(w)) == x
  {
    var p := Pow256(w);
    Pow256Half(w);
    if x >= 0 {
      ModUnsigned(x, p);
    } else {
      ModSigned(x, p, p / 2);
    }
  }

  /** Truncating division and the dividend-signed remainder recompose the
      dividend, and the remainder is smaller than the divisor. */
  lemma TRemBounds(a: int, b: int)
    requires b != 0
    ensures a == b * TDiv(a, b) + TRem(a, b)
    ensures Abs(TRem(a, b)) < Abs(b) && Abs(TRem(a, b)) <= Abs(a)
    ensures a >= 0 ==> TRem(a, b) >= 0
    ensures a < 0 ==> TRem(a, b) <= 0
  {
    var x, y := Abs(a), Abs(b);
    DivModNat(x, y);
    TDivRecomposes(a, b, x, y, x / y, x % y);
  }

  lemma TDivRecomposes(a: int, b: int, x: int, y: int, q: int, m: int)
    requires b != 0 && q >= 0 && m >= 0 && x == Abs(a) && y == Abs(b) && q == x / y && m == x % y
    requires x == y * q + m
    ensures a == b * TDiv(a, b) + TRem(a, b)
  {
    var t := y * q;
    MulNeg(y, q);
    if b > 0 {
      assert b == y;
      if a >= 0 {
        assert TDiv(a, b) == q && TRem(a, b) == m;
      } else {
        assert TDiv(a, b) == -q && TRem(a, b) == -m;
        assert b * -q == -t;
      }
    } else {
      assert b == -y;
      if a >= 0 {
        assert TDiv(a, b) == -q && TRem(a, b) == m;
        assert -y * -q == t;
      } else {
        assert TDiv(a, b) == q && TRem(a, b) == -m;
        assert -y * q == -t;
      }
    }
  }

  /** Euclid's division on naturals, with a quotient no larger than the dividend. */
  lemma DivModNat(x: nat, y: nat)
    requires y > 0
    ensures x == y * (x / y) + x % y && 0 <= x % y < y
    ensures 0 <= x / y <= x && x % y <= x
  {
    MulAtLeast(y, x / y);
  }

  lemma MulNeg(x: int, y: int)
    ensures x * -y == -(x * y) && -x * y == -(x * y)
  {
  }

  lemma MulAtLeast(x: nat, q: nat)
    requires x >= 1
    ensures x * q >= q
  {
  }

  lemma MulMonotone(x: int, y: int, p: nat)
    requires x <= y
    ensures x * p <= y * p
  {
  }

  /** Floor division by a positive number moves toward zero without crossing it. */
  lemma FloorDivBetween(a: int, p: int)
    requires p >= 1
    ensures a >= 0 ==> 0 <= a / p <= a
    ensures a < 0 ==> a <= a / p < 0
  {
    var q := a / p;
    assert q * p + a % p == a && 0 <= a % p < p;
    if a >= 0 {
      DivModNat(a, p);
    } else {
      if q < a {
        MulMonotone(q + 1, a, p);
        MulAtLeast(p, -a);
        MulNeg(p, a);
        assert false;
      }
      if q >= 0 {
        MulMonotone(0, q, p);
        assert false;
      }
    }
  }

  /** `>>` on an integer of the type stays in the type. */
  lemma ShrInRange(k: IntKind, a: int, b: nat)
    ensures k.InRange(a) ==> k.InRange(a / Pow2(b))
  {
    FloorDivBetween(a, Pow2(b));
  }

  /** `|` on bits is commutative and idempotent, and `0` is its unit. */
  lemma {:induction false} OrBitsLaws(x: nat, y: nat, n: nat)
    ensures OrBits(x, y, n) == OrBits(y, x, n)
    ensures x < Pow2(n) ==> OrBits(x, x, n) == x
    ensures x < Pow2(n) ==> OrBits(x, 0, n) == x
  {
    if n > 0 {
      OrBitsLaws(x / 2, y / 2, n - 1);
      if x < Pow2(n) {
        assert x / 2 < Pow2(n - 1);
        OrBitsLaws(x / 2, 0, n - 1);
      }
    }
  }

  /** `a | a == a` and `a | 0 == a` on every integer type. */
  lemma BitOrLaws(k: IntKind, a: int, b: int)
    requires k.InRange(a) && k.InRange(b)
    ensures ApplyInt(BitOr, k, a, b) == ApplyInt(BitOr, k, b, a)
    ensures ApplyInt(BitOr, k, a, a) == Some(Int(k, a))
    ensures ApplyInt(BitOr, k, a, 0) == Some(Int(k, a))
  {
    var p := Pow256(k.Width());
    OrBitsLaws(a % p, b % p, Bits(k));
    Pow256IsPow2(k.Width());
    OrBitsLaws(a % p, a % p, Bits(k));
    assert 0 % p == 0;
    var o := OrBits(a % p, a % p, Bits(k));
    assert o == a % p;
    WrapOfMod(k, a);
  }

  lemma {:induction false} Pow256IsPow2(w: nat)
    ensures Pow256(w) == Pow2(8 * w)
  {
    if w > 0 {
      Pow256IsPow2(w - 1);
      assert Pow2(8 * w) == 256 * Pow2(8 * (w - 1)) by {
        var m := 8 * (w - 1);
        assert Pow2(m + 8) == 2 * Pow2(m + 7) == 4 * Pow2(m + 6) == 8 * Pow2(m + 5)
          == 16 * Pow2(m + 4) == 32 * Pow2(m + 3) == 64 * Pow2(m + 2) == 128 * Pow2(m + 1) == 256 * Pow2(m);
      }
    }
  }

  /** Reinterpreting the low bits of a value of the type gives the value. */
  lemma WrapOfMod(k: IntKind, a: int)
    requires k.InRange(a)
    ensures Wrap(k, a % Pow256(k.Width())) == a
  {
    ModTwice(Pow256(k.Width()), a);
    WrapKeepsInRange(k, a);
  }

  lemma ModTwice(p: int, a: int)
    requires p > 0
    ensures (a % p) % p == a % p
  {
    ModUnsigned(a % p, p);
  }

  // ---------------------------------------------------------------------
  // Properties of evaluation

  /** `EqExpr` evaluates as a `BinExpr` with `EqOp` over the same sides. */
  lemma EqExprIsEqOp(l: Expr, r: Expr, row: SomeEntity)
    requires TypeOf(EqExpr(l, r)).Some? && row.Valid()
    ensures TypeOf(Bin(Eq, l, r)) == TypeOf(EqExpr(l, r)) == Some(TyBool)
    ensures Eval(EqExpr(l, r), row) == Eval(Bin(Eq, l, r), row)
  {
  }

  /** A literal is the same whatever the entity. */
  lemma LiteralIgnoresRow(v: EVal, row1: SomeEntity, row2: SomeEntity)
    requires TypeOf(Lit(v)).Some? && row1.Valid() && row2.Valid()
    ensures Eval(Lit(v), row1) == Eval(Lit(v), row2) == Some(v)
  {
  }

  /** `e.id()` and `e.foo()` resolve to the entity's `id` and `foo`. */
  lemma AttributesResolve(row: SomeEntity)
    requires row.Valid()
    ensures Eval(IdAttr(), row) == Some(Int(I64, row.id))
    ensures Eval(FooAttr(), row) == Some(Str(row.foo))
  {
  }

  /** `e.foo().eq("text")` holds exactly for the entities whose `foo` is that text. */
  lemma FooEqText(text: string, row: SomeEntity)
    requires row.Valid()
    ensures TypeOf(Bin(Eq, FooAttr(), Lit(Str(text)))) == Some(TyBool)
    ensures Eval(Bin(Eq, FooAttr(), Lit(Str(text))), row) == Some(Bool(row.foo == text))
  {
  }

  /** `/` and `%` agree: whenever both succeed, quotient times divisor plus
      remainder is the dividend, and the remainder is smaller than the divisor
      and has the dividend's sign. Both panic on a zero divisor. */
  lemma DivRemAgree(k: IntKind, a: int, b: int)
    requires k.InRange(a) && k.InRange(b)
    ensures b == 0 ==> ApplyInt(Div, k, a, b).None? && ApplyInt(Rem, k, a, b).None?
    ensures ApplyInt(Rem, k, a, b).Some? ==> ApplyInt(Div, k, a, b).Some?
    ensures ApplyInt(Rem, k, a, b).Some? ==>
      var q, r := ApplyInt(Div, k, a, b).value.n, ApplyInt(Rem, k, a, b).value.n;
      a == b * q + r && Abs(r) < Abs(b) && (a >= 0 ==> r >= 0) && (a < 0 ==> r <= 0)
  {
    if b != 0 {
      TRemBounds(a, b);
    }
  }

  /** An expression that evaluates is equal to itself: `x.eq(x)` is `true`. */
  lemma EqSelf(e: Expr, row: SomeEntity)
    requires TypeOf(e).Some? && row.Valid() && Eval(e, row).Some?
    ensures TypeOf(Bin(Eq, e, e)) == Some(TyBool)
    ensures Eval(Bin(Eq, e, e), row) == Some(Bool(true))
  {
  }

  /** `||` short-circuits: a `true` left side is the answer even when the
      right side would panic; otherwise the right side decides. */
  lemma LOrShortCircuits(l: Expr, r: Expr, row: SomeEntity)
    requires TypeOf(Bin(LOr, l, r)).Some? && row.Valid()
    ensures Eval(l, row) == Some(Bool(true)) ==> Eval(Bin(LOr, l, r), row) == Some(Bool(true))
    ensures Eval(l, row) == Some(Bool(false)) ==> Eval(Bin(LOr, l, r), row) == Eval(r, row)
    ensures Eval(l, row).None? ==> Eval(Bin(LOr, l, r), row).None?
  {
    if Eval(l, row) == Some(Bool(false)) {
      var b := Eval(r, row);
      if b.Some? {
        assert b.value.Bool?;
      }
    }
  }

  /** `+` gives the sum exactly when it fits the type, and panics otherwise. */
  lemma AddChecked(k: IntKind, a: int, b: int, row: SomeEntity)
    requires k.InRange(a) && k.InRange(b) && row.Valid()
    ensures TypeOf(Bin(Add, Lit(Int(k, a)), Lit(Int(k, b)))) == Some(TyInt(k))
    ensures Eval(Bin(Add, Lit(Int(k, a)), Lit(Int(k, b))), row)
      == if k.InRange(a + b) then Some(Int(k, a + b)) else None
  {
    var x, y := Int(k, a), Int(k, b);
    assert ValOk(x) && ValOk(y);
    assert Eval(Bin(Add, Lit(x), Lit(y)), row) == Apply(Add, x, y);
    assert Apply(Add, x, y) == ApplyInt(Add, k, a, b) == Checked(k, a + b);
  }

  // ---------------------------------------------------------------------
  // The `filter` loop

  const I32_MAX: int := 0x7FFF_FFFF

  /** The `sum` of `filter` over some entities: how many of them satisfy the
      query, or `None` when an evaluation or the `i32` sum panics. */
  function CountTrue(query: Expr, rows: seq<SomeEntity>): (r: Option<int>)
    requires TypeOf(query) == Some(TyBool)
    requires forall i | 0 <= i < |rows| :: rows[i].Valid()
    ensures r.Some? ==> 0 <= r.value <= |rows|
    decreases |rows|
  {
    if rows == [] then Some(0)
    else Tally(CountTrue(query, rows[..|rows| - 1]), Eval(query, rows[|rows| - 1]))
  }

  /** `sum += res as i32` on the sum so far and the query's value on the next
      entity, either of which may be a panic. */
  function Tally(before: Option<int>, res: Option<EVal>): (r: Option<int>)
    ensures r.Some? ==> before.Some? && before.value <= r.value <= before.value + 1
    ensures r.Some? ==> r.value <= I32_MAX
  {
    var n :- before;
    var v :- res;
    var sum := n + (if v == Bool(true) then 1 else 0);
    if sum > I32_MAX then None else Some(sum)
  }

  /** One more entity: the count of the longer prefix from the count of the
      shorter one and the query's value on the new entity. */
  lemma CountTrueStep(query: Expr, rows: seq<SomeEntity>, i: nat)
    requires TypeOf(query) == Some(TyBool)
    requires forall j | 0 <= j < |rows| :: rows[j].Valid()
    requires i < |rows|
    ensures CountTrue(query, rows[..i + 1]) == Tally(CountTrue(query, rows[..i]), Eval(query, rows[i]))
  {
    var prefix := rows[..i + 1];
    assert prefix[..i] == rows[..i] && prefix[i] == rows[i];
  }

  /** A panic on a prefix of the table is a panic of the whole run. */
  lemma {:induction false} CountTruePanics(query: Expr, rows: seq<SomeEntity>, i: nat)
    requires TypeOf(query) == Some(TyBool)
    requires forall j | 0 <= j < |rows| :: rows[j].Valid()
    requires i <= |rows| && CountTrue(query, rows[..i]).None?
    ensures CountTrue(query, rows).None?
    decreases |rows| - i
  {
    if i < |rows| {
      assert rows[..i + 1][..i] == rows[..i];
      CountTruePanics(query, rows, i + 1);
    } else {
      assert rows[..i] == rows;
    }
  }

  /** `ExDb`: the entities `filter` runs over. */
  class ExDb {
    var data: seq<SomeEntity>

    constructor (data: seq<SomeEntity>)
      ensures this.data == data
    {
      this.data := data;
    }
  }

  /** `filter`: the query built by the pattern, run once on each entity in
      order, counting the hits. The table is only read. */
  method Filter(query: Expr, db: ExDb) returns (r: Option<int>)
    requires TypeOf(query) == Some(TyBool)
    requires forall i | 0 <= i < |db.data| :: db.data[i].Valid()
    ensures r == CountTrue(query, db.data)
  {
    var data := db.data;
    var sum := 0;
    var i := 0;
    while i < |data|
      invariant 0 <= i <= |data|
      invariant CountTrue(query, data[..i]) == Some(sum)
    {
      CountTrueStep(query, data, i);
      var res := Eval(query, data[i]);
      var next := Tally(Some(sum), res);
      if next.None? {
        CountTruePanics(query, data, i + 1);
        return None;
      }
      sum := next.value;
      i := i + 1;
    }
    assert data[..i] == data;
    return Some(sum);
  }

  /** The query of the source's test, `e.id().eq(e.id())`, holds for every
      entity: run over fewer than 2^31 entities it counts all of them. */
  lemma {:induction false} IdEqIdCountsAll(rows: seq<SomeEntity>)
    requires forall i | 0 <= i < |rows| :: rows[i].Valid()
    requires |rows| <= I32_MAX
    ensures TypeOf(Bin(Eq, IdAttr(), IdAttr())) == Some(TyBool)
    ensures CountTrue(Bin(Eq, IdAttr(), IdAttr()), rows) == Some(|rows|)
    decreases |rows|
  {
    if rows != [] {
      IdEqIdCountsAll(rows[..|rows| - 1]);
      EqSelf(IdAttr(), rows[|rows| - 1]);
    }
  }
}
