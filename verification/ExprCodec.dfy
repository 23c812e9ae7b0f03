/** The tagged encoding of expression trees and its decoder. */
module ExprCodec {
  import opened Basics

  type i64 = x: int | -0x8000_0000_0000_0000 <= x < 0x8000_0000_0000_0000

  datatype F64 = Finite(value: real) | Infinite(negative: bool) | NaN

  datatype ScalarValue = Null | Str(s: string) | Int(i: i64) | Float(f: F64) | Bool(b: bool) | List(values: seq<ScalarValue>)

  /** The JSON values a literal can turn into; a JSON number is an integer or a finite float. */
  datatype Json = JNull | JBool(b: bool) | JInt(i: i64) | JFloat(f: real) | JString(s: string) | JArray(items: seq<Json>) | JObject

  datatype Field = Field(name: string, dtype: DataType, nullable: bool)

  /** `Other` stands for every data type without a tag, with its debug rendering. */
  datatype DataType = Utf8 | Int64 | Float64 | Boolean | NullType | ListType(item: Field) | Other(debug: string)

  datatype BinOp = Eq | NotEq | Gt | GtEq | Lt | LtEq | Add | Sub | Mul | Div

  datatype BinOpDef = EqDef | NotEqDef | GtDef | GtEqDef | LtDef | LtEqDef | AddDef | SubDef | MulDef | DivDef

  datatype UnOp = Neg

  datatype UnOpDef = NegDef

  datatype StrOp = Contains | StartsWith | EndsWith

  datatype StrOpDef = ContainsDef | StartsWithDef | EndsWithDef

  datatype Expr =
    | Col(name: string)
    | Literal(value: ScalarValue)
    | BinaryOp(left: Expr, op: BinOp, right: Expr)
    | UnaryOp(uop: UnOp, expr: Expr)
    | ListContains(expr: Expr, item: Expr)
    | Cast(expr: Expr, dtype: DataType)
    | And(left: Expr, right: Expr)
    | Or(left: Expr, right: Expr)
    | Not(expr: Expr)
    | PatternCol(alias: string, field: string)
    | StringOp(sop: StrOp, expr: Expr, pattern: Expr)

  datatype ExprDef =
    | ColDef(name: string)
    | LiteralDef(dtype: string, value: Json)
    | BinaryOpDef(left: ExprDef, op: BinOpDef, right: ExprDef)
    | UnaryOpDef(uop: UnOpDef, expr: ExprDef)
    | ListContainsDef(expr: ExprDef, item: ExprDef)
    | CastDef(expr: ExprDef, dtype: string)
    | AndDef(left: ExprDef, right: ExprDef)
    | OrDef(left: ExprDef, right: ExprDef)
    | NotDef(expr: ExprDef)
    | PatternColDef(alias: string, field: string)
    | StringOpDef(sop: StrOpDef, expr: ExprDef, pattern: ExprDef)

  datatype AggExpr =
    | Count
    | Sum(arg: Expr)
    | Mean(arg: Expr)
    | Collect(arg: Expr)
    | First(arg: Expr)
    | Last(arg: Expr)
    | Alias(inner: AggExpr, name: string)

  datatype AggExprDef =
    | CountDef
    | SumDef(arg: ExprDef)
    | MeanDef(arg: ExprDef)
    | CollectDef(arg: ExprDef)
    | FirstDef(arg: ExprDef)
    | LastDef(arg: ExprDef)
    | AliasDef(inner: AggExprDef, name: string)

  // ---- scalars ----

  function ScalarDtypeName(v: ScalarValue): string {
    match v
    case Null => "Null"
    case Str(_) => "String"
    case Int(_) => "Int"
    case Float(_) => "Float"
    case Bool(_) => "Bool"
    case List(values) => "List<" + (if values == [] then "Null" else ScalarDtypeName(values[0])) + ">"
  }

  function ScalarToJson(v: ScalarValue): Json {
    match v
    case Null => JNull
    case Str(s) => JString(s)
    case Int(i) => JInt(i)
    case Float(f) => if f.Finite? then JFloat(f.value) else JNull
    case Bool(b) => JBool(b)
    case List(values) => JArray(seq(|values|, i requires 0 <= i < |values| => ScalarToJson(values[i])))
  }

  predicate IsListTag(tag: string) {
    |tag| >= 6 && tag[..5] == "List<" && tag[|tag| - 1] == '>'
  }

  function JsonToScalar(tag: string, json: Json): Result<ScalarValue>
    decreases |tag|, 0
  {
    if tag == "Null" then Success(Null)
    else if tag == "String" then if json.JString? then Success(Str(json.s)) else Failure(Unsupported(tag))
    else if tag == "Int" then if json.JInt? then Success(Int(json.i)) else Failure(Unsupported(tag))
    else if tag == "Float" then
      if json.JFloat? then Success(Float(Finite(json.f)))
      else if json.JInt? then Success(Float(Finite(json.i as real)))
      else Failure(Unsupported(tag))
    else if tag == "Bool" then if json.JBool? then Success(Bool(json.b)) else Failure(Unsupported(tag))
    else if IsListTag(tag) then
      if !json.JArray? then Failure(Unsupported(tag))
      else
        var items :- JsonItems(tag[5..|tag| - 1], json.items);
        Success(List(items))
    else Failure(Unsupported(tag))
  }

  function JsonItems(tag: string, items: seq<Json>): (r: Result<seq<ScalarValue>>)
    ensures r.Success? ==> |r.value| == |items|
    decreases |tag|, |items| + 1
  {
    if items == [] then Success([])
    else
      var before :- JsonItems(tag, items[..|items| - 1]);
      var last :- JsonToScalar(tag, items[|items| - 1]);
      Success(before + [last])
  }

  // ---- when a literal survives ----

  datatype Tag = TNull | TString | TInt | TFloat | TBool | TList(item: Tag)

  function Name(t: Tag): string {
    match t
    case TNull => "Null"
    case TString => "String"
    case TInt => "Int"
    case TFloat => "Float"
    case TBool => "Bool"
    case TList(u) => "List<" + Name(u) + ">"
  }

  function TagOf(v: ScalarValue): Tag {
    match v
    case Null => TNull
    case Str(_) => TString
    case Int(_) => TInt
    case Float(_) => TFloat
    case Bool(_) => TBool
    case List(values) => TList(if values == [] then TNull else TagOf(values[0]))
  }

  /** The value has the shape the tag describes, all the way down, with finite floats. */
  predicate Fits(v: ScalarValue, t: Tag) {
    match t
    case TNull => v.Null?
    case TString => v.Str?
    case TInt => v.Int?
    case TFloat => v.Float? && v.f.Finite?
    case TBool => v.Bool?
    case TList(u) => v.List? && forall i | 0 <= i < |v.values| :: Fits(v.values[i], u)
  }

  lemma {:induction false} NameIsDtypeName(v: ScalarValue)
    ensures Name(TagOf(v)) == ScalarDtypeName(v)
  {
    if v.List? && v.values != [] {
      NameIsDtypeName(v.values[0]);
    }
  }

  lemma ListTagParses(inner: string)
    ensures IsListTag("List<" + inner + ">") && ("List<" + inner + ">")[5..|"List<" + inner + ">"| - 1] == inner
    ensures "List<" + inner + ">" !in {"Null", "String", "Int", "Float", "Bool"}
  {
    var tag := "List<" + inner + ">";
    assert tag[0] == 'L' && tag[..5] == "List<";
    assert "Null"[0] == 'N' && "String"[0] == 'S' && "Int"[0] == 'I' && "Float"[0] == 'F' && "Bool"[0] == 'B';
  }

  lemma BaseTagsPlain()
    ensures !IsListTag("Null") && !IsListTag("String") && !IsListTag("Int") && !IsListTag("Float") && !IsListTag("Bool")
    ensures "Null" != "String" && "Null" != "Int" && "Null" != "Float" && "Null" != "Bool"
    ensures "String" != "Int" && "String" != "Float" && "String" != "Bool"
    ensures "Int" != "Float" && "Int" != "Bool" && "Float" != "Bool"
  {
    assert "Null"[0] == 'N' && "String"[0] == 'S' && "Int"[0] == 'I' && "Float"[0] == 'F' && "Bool"[0] == 'B';
    assert "String"[..5] == "Strin" && "Strin"[0] == 'S' && "List<"[0] == 'L';
  }

  /** Decoding under a tag gives the value back exactly when the value fits the tag. */
  lemma {:induction false} ScalarRoundTrip(v: ScalarValue, t: Tag)
    ensures JsonToScalar(Name(t), ScalarToJson(v)) == Success(v) <==> Fits(v, t)
    decreases t, 0
  {
    BaseTagsPlain();
    match t
    case TNull =>
    case TString =>
    case TInt =>
    case TFloat =>
    case TBool =>
    case TList(u) =>
      ListTagParses(Name(u));
      if v.List? {
        ItemsRoundTrip(v.values, ScalarToJson(v).items, u);
      }
  }

  lemma {:induction false} ItemsRoundTrip(values: seq<ScalarValue>, items: seq<Json>, u: Tag)
    requires |items| == |values| && forall i | 0 <= i < |values| :: items[i] == ScalarToJson(values[i])
    ensures JsonItems(Name(u), items) == Success(values) <==> forall i | 0 <= i < |values| :: Fits(values[i], u)
    decreases u, |values| + 1
  {
    if values != [] {
      var n := |values| - 1;
      ItemsRoundTrip(values[..n], items[..n], u);
      ScalarRoundTrip(values[n], u);
      assert values == values[..n] + [values[n]];
      if JsonItems(Name(u), items) == Success(values) {
        LastItem(Name(u), items, values);
      }
    }
  }

  lemma LastItem(tag: string, items: seq<Json>, values: seq<ScalarValue>)
    requires items != [] && JsonItems(tag, items) == Success(values)
    ensures JsonItems(tag, items[..|items| - 1]) == Success(values[..|values| - 1])
    ensures JsonToScalar(tag, items[|items| - 1]) == Success(values[|values| - 1])
  {
  }

  // ---- when a literal comes back at all, and as what ----

  /** The value can be read back under the tag: anything as a null, an integer as a float. */
  predicate Readable(v: ScalarValue, t: Tag) {
    match t
    case TNull => true
    case TString => v.Str?
    case TInt => v.Int?
    case TFloat => v.Int? || (v.Float? && v.f.Finite?)
    case TBool => v.Bool?
    case TList(u) => v.List? && forall i | 0 <= i < |v.values| :: Readable(v.values[i], u)
  }

  /** What it is read back as. */
  function ReadAs(v: ScalarValue, t: Tag): ScalarValue
    requires Readable(v, t)
  {
    match t
    case TNull => Null
    case TString => v
    case TInt => v
    case TFloat => if v.Int? then Float(Finite(v.i as real)) else v
    case TBool => v
    case TList(u) => List(seq(|v.values|, i requires 0 <= i < |v.values| => ReadAs(v.values[i], u)))
  }

  /** The exact outcome of decoding a literal under any tag. */
  lemma {:induction false} ScalarOutcome(v: ScalarValue, t: Tag)
    ensures JsonToScalar(Name(t), ScalarToJson(v)).Success? <==> Readable(v, t)
    ensures Readable(v, t) ==> JsonToScalar(Name(t), ScalarToJson(v)) == Success(ReadAs(v, t))
    decreases t, 0
  {
    BaseTagsPlain();
    match t
    case TNull =>
    case TString =>
    case TInt =>
    case TFloat =>
    case TBool =>
    case TList(u) =>
      ListTagParses(Name(u));
      if v.List? {
        ItemsOutcome(v.values, ScalarToJson(v).items, u);
        if Readable(v, t) {
          assert ReadAll(v.values, u) == ReadAs(v, t).values;
        }
      }
  }

  function ReadAll(values: seq<ScalarValue>, u: Tag): (r: seq<ScalarValue>)
    requires forall i | 0 <= i < |values| :: Readable(values[i], u)
    ensures |r| == |values| && forall i | 0 <= i < |r| :: r[i] == ReadAs(values[i], u)
  {
    seq(|values|, i requires 0 <= i < |values| => ReadAs(values[i], u))
  }

  lemma {:induction false} ItemsOutcome(values: seq<ScalarValue>, items: seq<Json>, u: Tag)
    requires |items| == |values| && forall i | 0 <= i < |values| :: items[i] == ScalarToJson(values[i])
    ensures JsonItems(Name(u), items).Success? <==> forall i | 0 <= i < |values| :: Readable(values[i], u)
    ensures (forall i | 0 <= i < |values| :: Readable(values[i], u)) ==> JsonItems(Name(u), items) == Success(ReadAll(values, u))
    decreases u, |values| + 1
  {
    if values != [] {
      var n := |values| - 1;
      ItemsOutcome(values[..n], items[..n], u);
      ScalarOutcome(values[n], u);
      if forall i | 0 <= i < |values| :: Readable(values[i], u) {
        assert ReadAll(values, u) == ReadAll(values[..n], u) + [ReadAs(values[n], u)];
      }
    }
  }

  /** A literal comes back silently changed exactly when it is readable under its own tag but does not fit it. */
  lemma SilentlyChanged(v: ScalarValue)
    ensures (var r := JsonToScalar(ScalarDtypeName(v), ScalarToJson(v)); r.Success? && r.value != v)
       <==> Readable(v, TagOf(v)) && !Fits(v, TagOf(v))
  {
    NameIsDtypeName(v);
    ScalarOutcome(v, TagOf(v));
    ScalarRoundTrip(v, TagOf(v));
  }

  /** A list is homogeneous when all its items carry the first item's tag and are homogeneous themselves. */
  predicate Homogeneous(v: ScalarValue) {
    match v
    case Float(f) => f.Finite?
    case List(values) => forall i | 0 <= i < |values| :: TagOf(values[i]) == TagOf(values[0]) && Homogeneous(values[i])
    case _ => true
  }

  lemma {:induction false} HomogeneousFits(v: ScalarValue)
    requires Homogeneous(v)
    ensures Fits(v, TagOf(v))
    decreases v
  {
    if v.List? {
      forall i | 0 <= i < |v.values|
        ensures Fits(v.values[i], TagOf(v).item)
      {
        HomogeneousFits(v.values[i]);
      }
    }
  }

  // ---- data types ----

  function DtypeToName(d: DataType): string {
    match d
    case Utf8 => "String"
    case Int64 => "Int"
    case Float64 => "Float"
    case Boolean => "Bool"
    case NullType => "Null"
    case ListType(f) => "List<" + DtypeToName(f.dtype) + ">"
    case Other(debug) => debug
  }

  function NameToDtype(name: string): Result<DataType>
    decreases |name|
  {
    if name == "String" then Success(Utf8)
    else if name == "Int" then Success(Int64)
    else if name == "Float" then Success(Float64)
    else if name == "Bool" then Success(Boolean)
    else if name == "Null" then Success(NullType)
    else if IsListTag(name) then
      var inner :- NameToDtype(name[5..|name| - 1]);
      Success(ListType(Field("item", inner, true)))
    else Failure(Unsupported(name))
  }

  /** Built from the five base types by nullable lists whose field is called `item`. */
  predicate Named(d: DataType) {
    match d
    case ListType(f) => f.name == "item" && f.nullable && Named(f.dtype)
    case Other(_) => false
    case _ => true
  }

  lemma {:induction false} NamesOnly(name: string)
    ensures NameToDtype(name).Success? ==> Named(NameToDtype(name).value)
    decreases |name|
  {
    if IsListTag(name) {
      NamesOnly(name[5..|name| - 1]);
    }
  }

  /** A type name decodes back to its type exactly when the type is one of the named ones. */
  lemma {:induction false} DtypeRoundTrip(d: DataType)
    ensures NameToDtype(DtypeToName(d)) == Success(d) <==> Named(d)
    decreases d
  {
    BaseTagsPlain();
    match d
    case Utf8 =>
    case Int64 =>
    case Float64 =>
    case Boolean =>
    case NullType =>
    case ListType(f) =>
      ListTagParses(DtypeToName(f.dtype));
      DtypeRoundTrip(f.dtype);
    case Other(debug) =>
      NamesOnly(debug);
  }

  // ---- operators ----

  function EncodeBinOp(op: BinOp): BinOpDef {
    match op
    case Eq => EqDef
    case NotEq => NotEqDef
    case Gt => GtDef
    case GtEq => GtEqDef
    case Lt => LtDef
    case LtEq => LtEqDef
    case Add => AddDef
    case Sub => SubDef
    case Mul => MulDef
    case Div => DivDef
  }

  function DecodeBinOp(op: BinOpDef): BinOp {
    match op
    case EqDef => Eq
    case NotEqDef => NotEq
    case GtDef => Gt
    case GtEqDef => GtEq
    case LtDef => Lt
    case LtEqDef => LtEq
    case AddDef => Add
    case SubDef => Sub
    case MulDef => Mul
    case DivDef => Div
  }

  function EncodeStrOp(op: StrOp): StrOpDef {
    match op
    case Contains => ContainsDef
    case StartsWith => StartsWithDef
    case EndsWith => EndsWithDef
  }

  function DecodeStrOp(op: StrOpDef): StrOp {
    match op
    case ContainsDef => Contains
    case StartsWithDef => StartsWith
    case EndsWithDef => EndsWith
  }

  // ---- expressions ----

  function Encode(e: Expr): ExprDef {
    match e
    case Col(name) => ColDef(name)
    case Literal(v) => LiteralDef(ScalarDtypeName(v), ScalarToJson(v))
    case BinaryOp(l, op, r) => BinaryOpDef(Encode(l), EncodeBinOp(op), Encode(r))
    case UnaryOp(op, x) => UnaryOpDef(NegDef, Encode(x))
    case ListContains(x, item) => ListContainsDef(Encode(x), Encode(item))
    case Cast(x, d) => CastDef(Encode(x), DtypeToName(d))
    case And(l, r) => AndDef(Encode(l), Encode(r))
    case Or(l, r) => OrDef(Encode(l), Encode(r))
    case Not(x) => NotDef(Encode(x))
    case PatternCol(alias, field) => PatternColDef(alias, field)
    case StringOp(op, x, pattern) => StringOpDef(EncodeStrOp(op), Encode(x), Encode(pattern))
  }

  function Decode(d: ExprDef): Result<Expr> {
    match d
    case ColDef(name) => Success(Col(name))
    case LiteralDef(dtype, json) =>
      var v :- JsonToScalar(dtype, json);
      Success(Literal(v))
    case BinaryOpDef(l, op, r) =>
      var left :- Decode(l);
      var right :- Decode(r);
      Success(BinaryOp(left, DecodeBinOp(op), right))
    case UnaryOpDef(_, x) =>
      var expr :- Decode(x);
      Success(UnaryOp(Neg, expr))
    case ListContainsDef(x, i) =>
      var expr :- Decode(x);
      var item :- Decode(i);
      Success(ListContains(expr, item))
    case CastDef(x, name) =>
      var expr :- Decode(x);
      var dtype :- NameToDtype(name);
      Success(Cast(expr, dtype))
    case AndDef(l, r) =>
      var left :- Decode(l);
      var right :- Decode(r);
      Success(And(left, right))
    case OrDef(l, r) =>
      var left :- Decode(l);
      var right :- Decode(r);
      Success(Or(left, right))
    case NotDef(x) =>
      var expr :- Decode(x);
      Success(Not(expr))
    case PatternColDef(alias, field) => Success(PatternCol(alias, field))
    case StringOpDef(op, x, p) =>
      var expr :- Decode(x);
      var pattern :- Decode(p);
      Success(StringOp(DecodeStrOp(op), expr, pattern))
  }

  // ---- the names on the wire ----

  /** The `kind` that the serialised form of a definition carries. */
  function WireKind(d: ExprDef): string {
    match d
    case ColDef(_) => "col"
    case LiteralDef(_, _) => "literal"
    case BinaryOpDef(_, _, _) => "binary_op"
    case UnaryOpDef(_, _) => "unary_op"
    case ListContainsDef(_, _) => "list_contains"
    case CastDef(_, _) => "cast"
    case AndDef(_, _) => "and"
    case OrDef(_, _) => "or"
    case NotDef(_) => "not"
    case PatternColDef(_, _) => "pattern_col"
    case StringOpDef(_, _, _) => "string_op"
  }

  function WireBinOp(op: BinOpDef): string {
    match op
    case EqDef => "eq"
    case NotEqDef => "not_eq"
    case GtDef => "gt"
    case GtEqDef => "gt_eq"
    case LtDef => "lt"
    case LtEqDef => "lt_eq"
    case AddDef => "add"
    case SubDef => "sub"
    case MulDef => "mul"
    case DivDef => "div"
  }

  function WireStrOp(op: StrOpDef): string {
    match op
    case ContainsDef => "contains"
    case StartsWithDef => "starts_with"
    case EndsWithDef => "ends_with"
  }

  /** Each kind of expression is encoded under its own name with its operands in their places. */
  lemma EncodedKind(e: Expr)
    ensures e.Col? ==> WireKind(Encode(e)) == "col" && Encode(e).name == e.name
    ensures e.Literal? ==> WireKind(Encode(e)) == "literal" && Encode(e).dtype == Name(TagOf(e.value))
    ensures e.BinaryOp? ==> WireKind(Encode(e)) == "binary_op" && Encode(e).left == Encode(e.left) && Encode(e).right == Encode(e.right)
    ensures e.UnaryOp? ==> WireKind(Encode(e)) == "unary_op" && Encode(e).expr == Encode(e.expr)
    ensures e.ListContains? ==> WireKind(Encode(e)) == "list_contains" && Encode(e).expr == Encode(e.expr) && Encode(e).item == Encode(e.item)
    ensures e.Cast? ==> WireKind(Encode(e)) == "cast" && Encode(e).expr == Encode(e.expr)
    ensures e.And? ==> WireKind(Encode(e)) == "and" && Encode(e).left == Encode(e.left) && Encode(e).right == Encode(e.right)
    ensures e.Or? ==> WireKind(Encode(e)) == "or" && Encode(e).left == Encode(e.left) && Encode(e).right == Encode(e.right)
    ensures e.Not? ==> WireKind(Encode(e)) == "not" && Encode(e).expr == Encode(e.expr)
    ensures e.PatternCol? ==> WireKind(Encode(e)) == "pattern_col" && Encode(e).alias == e.alias && Encode(e).field == e.field
    ensures e.StringOp? ==> WireKind(Encode(e)) == "string_op" && Encode(e).expr == Encode(e.expr) && Encode(e).pattern == Encode(e.pattern)
  {
    hide Name, TagOf, ScalarDtypeName, ScalarToJson;
    if e.Literal? {
      NameIsDtypeName(e.value);
    }
  }

  /** Each operator is encoded under its own name. */
  lemma EncodedOperator(op: BinOp, sop: StrOp)
    ensures WireBinOp(EncodeBinOp(op)) in ["eq", "not_eq", "gt", "gt_eq", "lt", "lt_eq", "add", "sub", "mul", "div"]
    ensures (op.Eq? <==> WireBinOp(EncodeBinOp(op)) == "eq") && (op.NotEq? <==> WireBinOp(EncodeBinOp(op)) == "not_eq")
    ensures (op.Gt? <==> WireBinOp(EncodeBinOp(op)) == "gt") && (op.GtEq? <==> WireBinOp(EncodeBinOp(op)) == "gt_eq")
    ensures (op.Lt? <==> WireBinOp(EncodeBinOp(op)) == "lt") && (op.LtEq? <==> WireBinOp(EncodeBinOp(op)) == "lt_eq")
    ensures (op.Add? <==> WireBinOp(EncodeBinOp(op)) == "add") && (op.Sub? <==> WireBinOp(EncodeBinOp(op)) == "sub")
    ensures (op.Mul? <==> WireBinOp(EncodeBinOp(op)) == "mul") && (op.Div? <==> WireBinOp(EncodeBinOp(op)) == "div")
    ensures (sop.Contains? <==> WireStrOp(EncodeStrOp(sop)) == "contains") && (sop.StartsWith? <==> WireStrOp(EncodeStrOp(sop)) == "starts_with")
    ensures sop.EndsWith? <==> WireStrOp(EncodeStrOp(sop)) == "ends_with"
  {
    OperatorNamesDiffer();
  }

  lemma OperatorNamesDiffer()
    ensures Distinct(["eq", "not_eq", "gt", "gt_eq", "lt", "lt_eq", "add", "sub", "mul", "div"])
    ensures Distinct(["contains", "starts_with", "ends_with"])
  {
    assert "eq"[0] == 'e' && "not_eq"[0] == 'n' && "gt"[0] == 'g' && "lt"[0] == 'l' && "add"[0] == 'a' && "sub"[0] == 's' && "mul"[0] == 'm' && "div"[0] == 'd';
    assert "contains"[0] == 'c' && "starts_with"[0] == 's' && "ends_with"[0] == 'e';
    assert |"gt"| == 2 && |"gt_eq"| == 5 && |"lt"| == 2 && |"lt_eq"| == 5;
    assert "gt_eq"[0] == 'g' && "lt_eq"[0] == 'l';
  }

  /** Every literal fits the tag of its first items, and every cast names its type. */
  predicate Encodable(e: Expr) {
    match e
    case Col(_) => true
    case Literal(v) => Fits(v, TagOf(v))
    case BinaryOp(l, _, r) => Encodable(l) && Encodable(r)
    case UnaryOp(_, x) => Encodable(x)
    case ListContains(x, item) => Encodable(x) && Encodable(item)
    case Cast(x, d) => Encodable(x) && Named(d)
    case And(l, r) => Encodable(l) && Encodable(r)
    case Or(l, r) => Encodable(l) && Encodable(r)
    case Not(x) => Encodable(x)
    case PatternCol(_, _) => true
    case StringOp(_, x, pattern) => Encodable(x) && Encodable(pattern)
  }

  /** Encoding and decoding gives the expression back exactly when it is encodable. */
  lemma {:induction false} ExprRoundTrip(e: Expr)
    ensures Decode(Encode(e)) == Success(e) <==> Encodable(e)
    decreases e
  {
    match e
    case Col(_) =>
    case Literal(v) =>
      NameIsDtypeName(v);
      ScalarRoundTrip(v, TagOf(v));
    case BinaryOp(l, _, r) =>
      ExprRoundTrip(l);
      ExprRoundTrip(r);
    case UnaryOp(op, x) =>
      assert op == Neg;
      ExprRoundTrip(x);
    case ListContains(x, item) =>
      ExprRoundTrip(x);
      ExprRoundTrip(item);
    case Cast(x, d) =>
      ExprRoundTrip(x);
      DtypeRoundTrip(d);
    case And(l, r) =>
      ExprRoundTrip(l);
      ExprRoundTrip(r);
    case Or(l, r) =>
      ExprRoundTrip(l);
      ExprRoundTrip(r);
    case Not(x) =>
      ExprRoundTrip(x);
    case PatternCol(_, _) =>
    case StringOp(_, x, pattern) =>
      ExprRoundTrip(x);
      ExprRoundTrip(pattern);
  }

  /** Every literal is readable under the tag of its first items, and every cast's type name names some type. */
  predicate Decodable(e: Expr) {
    match e
    case Col(_) => true
    case Literal(v) => Readable(v, TagOf(v))
    case BinaryOp(l, _, r) => Decodable(l) && Decodable(r)
    case UnaryOp(_, x) => Decodable(x)
    case ListContains(x, item) => Decodable(x) && Decodable(item)
    case Cast(x, d) => Decodable(x) && Nameable(d)
    case And(l, r) => Decodable(l) && Decodable(r)
    case Or(l, r) => Decodable(l) && Decodable(r)
    case Not(x) => Decodable(x)
    case PatternCol(_, _) => true
    case StringOp(_, x, pattern) => Decodable(x) && Decodable(pattern)
  }

  /** Base types and lists of them, whatever the list field is called and whether or not it is nullable. */
  predicate Nameable(d: DataType) {
    match d
    case ListType(f) => Nameable(f.dtype)
    case Other(debug) => NameToDtype(debug).Success?
    case _ => true
  }

  lemma {:induction false} DtypeOutcome(d: DataType)
    ensures NameToDtype(DtypeToName(d)).Success? <==> Nameable(d)
    decreases d
  {
    BaseTagsPlain();
    match d
    case Utf8 =>
    case Int64 =>
    case Float64 =>
    case Boolean =>
    case NullType =>
    case ListType(f) =>
      ListTagParses(DtypeToName(f.dtype));
      DtypeOutcome(f.dtype);
    case Other(_) =>
  }

  /** Decoding succeeds exactly for decodable expressions, and then changes exactly the ones that are not
      encodable. */
  lemma {:induction false} ExprOutcome(e: Expr)
    ensures Decode(Encode(e)).Success? <==> Decodable(e)
    ensures (Decode(Encode(e)).Success? && Decode(Encode(e)).value != e) <==> Decodable(e) && !Encodable(e)
    decreases e
  {
    ExprRoundTrip(e);
    match e
    case Col(_) =>
    case Literal(v) =>
      NameIsDtypeName(v);
      ScalarOutcome(v, TagOf(v));
    case BinaryOp(l, _, r) =>
      ExprOutcome(l);
      ExprOutcome(r);
    case UnaryOp(_, x) =>
      ExprOutcome(x);
    case ListContains(x, item) =>
      ExprOutcome(x);
      ExprOutcome(item);
    case Cast(x, d) =>
      ExprOutcome(x);
      DtypeOutcome(d);
    case And(l, r) =>
      ExprOutcome(l);
      ExprOutcome(r);
    case Or(l, r) =>
      ExprOutcome(l);
      ExprOutcome(r);
    case Not(x) =>
      ExprOutcome(x);
    case PatternCol(_, _) =>
    case StringOp(_, x, pattern) =>
      ExprOutcome(x);
      ExprOutcome(pattern);
  }

  // ---- aggregates ----

  function EncodeAgg(a: AggExpr): AggExprDef {
    match a
    case Count => CountDef
    case Sum(x) => SumDef(Encode(x))
    case Mean(x) => MeanDef(Encode(x))
    case Collect(x) => CollectDef(Encode(x))
    case First(x) => FirstDef(Encode(x))
    case Last(x) => LastDef(Encode(x))
    case Alias(inner, name) => AliasDef(EncodeAgg(inner), name)
  }

  function DecodeAgg(d: AggExprDef): Result<AggExpr> {
    match d
    case CountDef => Success(Count)
    case SumDef(x) =>
      var arg :- Decode(x);
      Success(Sum(arg))
    case MeanDef(x) =>
      var arg :- Decode(x);
      Success(Mean(arg))
    case CollectDef(x) =>
      var arg :- Decode(x);
      Success(Collect(arg))
    case FirstDef(x) =>
      var arg :- Decode(x);
      Success(First(arg))
    case LastDef(x) =>
      var arg :- Decode(x);
      Success(Last(arg))
    case AliasDef(inner, name) =>
      var agg :- DecodeAgg(inner);
      Success(Alias(agg, name))
  }

  function WireAgg(d: AggExprDef): string {
    match d
    case CountDef => "count"
    case SumDef(_) => "sum"
    case MeanDef(_) => "mean"
    case CollectDef(_) => "list"
    case FirstDef(_) => "first"
    case LastDef(_) => "last"
    case AliasDef(_, _) => "alias"
  }

  /** Each aggregate is encoded under its own name. */
  lemma EncodedAgg(a: AggExpr)
    ensures a.Count? ==> WireAgg(EncodeAgg(a)) == "count"
    ensures a.Sum? ==> WireAgg(EncodeAgg(a)) == "sum" && EncodeAgg(a).arg == Encode(a.arg)
    ensures a.Mean? ==> WireAgg(EncodeAgg(a)) == "mean" && EncodeAgg(a).arg == Encode(a.arg)
    ensures a.Collect? ==> WireAgg(EncodeAgg(a)) == "list" && EncodeAgg(a).arg == Encode(a.arg)
    ensures a.First? ==> WireAgg(EncodeAgg(a)) == "first" && EncodeAgg(a).arg == Encode(a.arg)
    ensures a.Last? ==> WireAgg(EncodeAgg(a)) == "last" && EncodeAgg(a).arg == Encode(a.arg)
    ensures a.Alias? ==> WireAgg(EncodeAgg(a)) == "alias" && EncodeAgg(a).name == a.name && EncodeAgg(a).inner == EncodeAgg(a.inner)
  {
  }

  predicate EncodableAgg(a: AggExpr) {
    match a
    case Count => true
    case Alias(inner, _) => EncodableAgg(inner)
    case _ => Encodable(a.arg)
  }

  lemma {:induction false} AggRoundTrip(a: AggExpr)
    ensures DecodeAgg(EncodeAgg(a)) == Success(a) <==> EncodableAgg(a)
    decreases a
  {
    match a
    case Count =>
    case Alias(inner, _) =>
      AggRoundTrip(inner);
    case _ =>
      ExprRoundTrip(a.arg);
  }

  /** Mixed lists are encoded without complaint under their first item's tag. Some cannot be decoded; others
      come back changed. */
  lemma MixedListLost()
    ensures Decode(Encode(Literal(List([Int(1), Str("a")])))).Failure?
    ensures Decode(Encode(Literal(Float(NaN)))).Failure?
    ensures Decode(Encode(Literal(List([Null, Str("a")])))) == Success(Literal(List([Null, Null])))
    ensures Decode(Encode(Literal(List([Float(Finite(0.5)), Int(1)])))) == Success(Literal(List([Float(Finite(0.5)), Float(Finite(1.0))])))
  {
    hide JsonToScalar, ScalarToJson, ScalarDtypeName, Encode, Decode;
    LiteralOutcome(List([Int(1), Str("a")]));
    assert !Readable([Int(1), Str("a")][1], TInt);
    LiteralOutcome(Float(NaN));
    LiteralOutcome(List([Null, Str("a")]));
    assert ReadAs(List([Null, Str("a")]), TList(TNull)).values == [Null, Null];
    LiteralOutcome(List([Float(Finite(0.5)), Int(1)]));
    assert ReadAs(List([Float(Finite(0.5)), Int(1)]), TList(TFloat)).values == [Float(Finite(0.5)), Float(Finite(1.0))];
  }

  lemma LiteralOutcome(v: ScalarValue)
    ensures Decode(Encode(Literal(v))).Success? <==> Readable(v, TagOf(v))
    ensures Readable(v, TagOf(v)) ==> Decode(Encode(Literal(v))) == Success(Literal(ReadAs(v, TagOf(v))))
  {
    NameIsDtypeName(v);
    ScalarOutcome(v, TagOf(v));
  }
}
