/** From JSON Schema through the form's field tree to a validator. */
module FormSchema {
  import opened Registry

  datatype Value = NullValue | BoolValue(b: bool) | NumValue(n: real) | StrValue(s: string)
                 | ArrValue(items: seq<Value>) | ObjValue(fields: map<string, Value>)

  /** The `required` keyword: a list of names, or the boolean some schemas carry. */
  datatype Required = Absent | Flag(b: bool) | Names(names: seq<string>)

  /** The values of `type` and `format` that the code or the standard distinguishes. */
  datatype TypeName =
    TString | TNumber | TInteger | TBoolean | TObject | TArray | TNull | TSelect | TDate | TOther(text: string)
  datatype Format = Email | Uri | OtherFormat(text: string)

  /** The keywords the parser reads; None means absent. */
  datatype Schema = Schema(
    ty: Option<TypeName>, required: Required,
    minLength: Option<int>, maxLength: Option<int>, pattern: Option<string>, format: Option<Format>,
    enumeration: Option<seq<Value>>,
    minimum: Option<real>, maximum: Option<real>, multipleOf: Option<real>,
    additional: Option<bool>, properties: Option<Props>, items: Option<Schema>)

  /** The entries of an object in order. */
  datatype Props = End | Prop(name: string, schema: Schema, rest: Props)

  datatype FieldType = StringField | NumberField | BooleanField | DateField | SelectField | ObjectField | ArrayField

  datatype Field = Field(
    name: string, ty: FieldType, required: bool,
    minLength: Option<int>, maxLength: Option<int>, pattern: Option<string>, format: Option<Format>,
    enumeration: Option<seq<Value>>,
    minimum: Option<real>, maximum: Option<real>, multipleOf: Option<real>,
    additional: Option<bool>, properties: Option<Fields>, items: Option<Field>)

  datatype Fields = NoFields | MoreFields(field: Field, rest: Fields)

  // ---- the parser ------------------------------------------------------------------------------------

  function NormalizeType(ty: Option<TypeName>): FieldType
  {
    match ty
    case Some(TString) => StringField
    case Some(TNumber) => NumberField
    case Some(TInteger) => NumberField
    case Some(TBoolean) => BooleanField
    case Some(TObject) => ObjectField
    case Some(TArray) => ArrayField
    case Some(TSelect) => SelectField
    case Some(TDate) => DateField
    case _ => StringField
  }

  /** JavaScript's Boolean(required): any list is true, also an empty one. */
  predicate TruthyRequired(r: Required) { r.Names? || (r.Flag? && r.b) }

  predicate Lists(r: Required, name: string) { r.Names? && name in r.names }

  function Bare(name: string, ty: FieldType, required: bool): Field
  {
    Field(name, ty, required, None, None, None, None, None, None, None, None, None, None, None)
  }

  /** `parseField`; None stands for the TypeError of building a set from a boolean `required`. */
  function ParseField(name: string, s: Schema): Option<Field>
    decreases s
  {
    var f := Bare(name, NormalizeType(s.ty), TruthyRequired(s.required));
    match f.ty
    case StringField =>
      Some(f.(minLength := s.minLength, maxLength := s.maxLength, pattern := s.pattern, format := s.format,
              enumeration := s.enumeration))
    case NumberField =>
      Some(f.(minimum := s.minimum, maximum := s.maximum, multipleOf := s.multipleOf, enumeration := s.enumeration))
    case SelectField => Some(f.(enumeration := s.enumeration))
    case ObjectField => (
      match s.properties
      case None => Some(f.(additional := s.additional))
      case Some(ps) =>
        if s.required.Flag? then None else
        match ParseProps(s.required, ps)
        case None => None
        case Some(fs) => Some(f.(additional := s.additional, properties := Some(fs))))
    case ArrayField => (
      match s.items
      case None => Some(f)
      case Some(item) =>
        match ParseField("item", item)
        case None => None
        case Some(i) => Some(f.(items := Some(i))))
    case _ => Some(f)
  }

  function ParseProps(required: Required, ps: Props): Option<Fields>
    decreases ps
  {
    match ps
    case End => Some(NoFields)
    case Prop(name, schema, rest) =>
      match (ParseField(name, schema), ParseProps(required, rest))
      case (Some(f), Some(fs)) => Some(MoreFields(if Lists(required, name) then f.(required := true) else f, fs))
      case _ => None
  }

  /** `parseFormSchema`; None as input is anything that is not an object. */
  function ParseFormSchema(schema: Option<Schema>): Option<Field>
  {
    match schema
    case None => Some(Bare("root", ObjectField, false).(properties := Some(NoFields)))
    case Some(s) => ParseField("root", s)
  }

  // ---- the validators ----------------------------------------------------------------------------------

  datatype Check = MinLength(n: int) | MaxLength(n: int) | Matches(pattern: string) | IsEmail | IsUrl
                 | AtLeast(x: real) | AtMost(x: real) | MultipleOf(x: real)

  /** The Zod combinators in use. */
  datatype Zod = ZString(checks: seq<Check>) | ZNumber(checks: seq<Check>) | ZBoolean | ZDate | ZUnknown
               | ZEnum(values: seq<Value>) | ZArray(item: Zod) | ZObject(shape: Shape) | ZOptional(inner: Zod)

  datatype Shape = EmptyShape | Entry(key: string, zod: Zod, rest: Shape)

  /** Regular expressions, email and URL syntax, and date coercion are not modelled, only shared. */
  datatype Env = Env(matches: (string, string) -> bool, email: string -> bool, url: string -> bool,
                     date: Option<Value> -> bool)

  /** JavaScript's length of a string: characters beyond the basic plane count twice. */
  function Utf16Length(s: string): nat
  {
    if s == [] then 0 else (if s[0] as int >= 0x1_0000 then 2 else 1) + Utf16Length(s[1..])
  }

  predicate IsTimes(n: real, k: int, m: real) { n == k as real * m }

  ghost predicate IsMultiple(n: real, m: real) { exists k: int :: IsTimes(n, k, m) }

  ghost predicate Passes(env: Env, c: Check, v: Value)
  {
    match c
    case MinLength(n) => v.StrValue? && Utf16Length(v.s) >= n
    case MaxLength(n) => v.StrValue? && Utf16Length(v.s) <= n
    case Matches(p) => v.StrValue? && env.matches(p, v.s)
    case IsEmail => v.StrValue? && env.email(v.s)
    case IsUrl => v.StrValue? && env.url(v.s)
    case AtLeast(x) => v.NumValue? && v.n >= x
    case AtMost(x) => v.NumValue? && v.n <= x
    case MultipleOf(x) => v.NumValue? && IsMultiple(v.n, x)
  }

  /** What a validator accepts; None is JavaScript's undefined. */
  ghost predicate Accepts(env: Env, z: Zod, v: Option<Value>)
    decreases z
  {
    match z
    case ZString(cs) => v.Some? && v.value.StrValue? && forall c | c in cs :: Passes(env, c, v.value)
    case ZNumber(cs) => v.Some? && v.value.NumValue? && forall c | c in cs :: Passes(env, c, v.value)
    case ZBoolean => v.Some? && v.value.BoolValue?
    case ZDate => env.date(v)
    case ZUnknown => true
    case ZEnum(vs) => v.Some? && v.value.StrValue? && v.value in vs
    case ZArray(item) =>
      v.Some? && v.value.ArrValue? && forall i | 0 <= i < |v.value.items| :: Accepts(env, item, Some(v.value.items[i]))
    case ZObject(shape) => v.Some? && v.value.ObjValue? && AcceptsShape(env, shape, v.value.fields)
    case ZOptional(inner) => v.None? || Accepts(env, inner, v)
  }

  function Get(fields: map<string, Value>, k: string): Option<Value> { if k in fields then Some(fields[k]) else None }

  ghost predicate AcceptsShape(env: Env, shape: Shape, fields: map<string, Value>)
    decreases shape
  {
    match shape
    case EmptyShape => true
    case Entry(k, z, rest) => Accepts(env, z, Get(fields, k)) && AcceptsShape(env, rest, fields)
  }

  // ---- the compiler ------------------------------------------------------------------------------------

  function Opt<T>(o: Option<T>, f: T -> Check): seq<Check> { match o case None => [] case Some(x) => [f(x)] }

  function StringChecks(f: Field): seq<Check>
  {
    Opt(f.minLength, n => MinLength(n)) + Opt(f.maxLength, n => MaxLength(n)) + Opt(f.pattern, p => Matches(p)) +
    if f.format == Some(Email) then [IsEmail] else if f.format == Some(Uri) then [IsUrl] else []
  }

  function NumberChecks(f: Field): seq<Check>
  {
    Opt(f.minimum, x => AtLeast(x)) + Opt(f.maximum, x => AtMost(x)) + Opt(f.multipleOf, x => MultipleOf(x))
  }

  predicate HasEnum(f: Field) { f.enumeration.Some? && f.enumeration.value != [] }

  /** JavaScript's String applied to the enum members of a select. */
  function Texts(vs: seq<Value>, text: Value -> string): seq<Value>
  {
    seq(|vs|, i requires 0 <= i < |vs| => StrValue(text(vs[i])))
  }

  /** The validator of a field before it is made optional; `text` is JavaScript's String. */
  function CoreOf(f: Field, text: Value -> string): Zod
    decreases f, 0
  {
    match f.ty
    case StringField => if HasEnum(f) then ZEnum(f.enumeration.value) else ZString(StringChecks(f))
    case NumberField => ZNumber(NumberChecks(f))
    case BooleanField => ZBoolean
    case DateField => ZDate
    case SelectField => if HasEnum(f) then ZEnum(Texts(f.enumeration.value, text)) else ZString([])
    case ObjectField => (
      match f.properties case None => ZObject(EmptyShape) case Some(fs) => ZObject(ShapeOf(fs, text)))
    case ArrayField => (
      match f.items case None => ZArray(ZUnknown) case Some(i) => ZArray(ZodOf(i, text)))
  }

  function ZodOf(f: Field, text: Value -> string): Zod
    decreases f, 1
  {
    if f.required then CoreOf(f, text) else ZOptional(CoreOf(f, text))
  }

  lemma CoreIgnoresRequired(f: Field, text: Value -> string, required: bool)
    ensures CoreOf(f.(required := required), text) == CoreOf(f, text)
  {
  }

  function ShapeOf(fs: Fields, text: Value -> string): Shape
    decreases fs, 1
  {
    match fs case NoFields => EmptyShape case MoreFields(f, rest) => Entry(f.name, ZodOf(f, text), ShapeOf(rest, text))
  }

  function Append(a: Shape, b: Shape): Shape
  {
    match a case EmptyShape => b case Entry(k, z, rest) => Entry(k, z, Append(rest, b))
  }

  lemma {:induction false} AppendAssociative(a: Shape, b: Shape, c: Shape)
    ensures Append(Append(a, b), c) == Append(a, Append(b, c))
    ensures Append(a, EmptyShape) == a
  {
    match a case EmptyShape => case Entry(_, _, rest) => AppendAssociative(rest, b, c);
  }

  /** `fieldToZod`: the validator is refined step by step, and made optional last. */
  method FieldToZod(f: Field, text: Value -> string) returns (z: Zod)
    ensures z == ZodOf(f, text)
    decreases f, 0
  {
    match f.ty {
    case StringField =>
      var checks: seq<Check> := [];
      if f.minLength.Some? { checks := checks + [MinLength(f.minLength.value)]; }
      if f.maxLength.Some? { checks := checks + [MaxLength(f.maxLength.value)]; }
      if f.pattern.Some? { checks := checks + [Matches(f.pattern.value)]; }
      if f.format == Some(Email) { checks := checks + [IsEmail]; }
      else if f.format == Some(Uri) { checks := checks + [IsUrl]; }
      assert checks == StringChecks(f);
      z := ZString(checks);
      if f.enumeration.Some? && |f.enumeration.value| > 0 { z := ZEnum(f.enumeration.value); }
    case NumberField =>
      var checks: seq<Check> := [];
      if f.minimum.Some? { checks := checks + [AtLeast(f.minimum.value)]; }
      if f.maximum.Some? { checks := checks + [AtMost(f.maximum.value)]; }
      if f.multipleOf.Some? { checks := checks + [MultipleOf(f.multipleOf.value)]; }
      assert checks == NumberChecks(f);
      z := ZNumber(checks);
    case BooleanField => z := ZBoolean;
    case DateField => z := ZDate;
    case SelectField =>
      if f.enumeration.Some? && |f.enumeration.value| > 0 { z := ZEnum(Texts(f.enumeration.value, text)); }
      else { z := ZString([]); }
    case ObjectField =>
      var shape := EmptyShape;
      if f.properties.Some? { shape := FieldsToShape(f.properties.value, text); }
      z := ZObject(shape);
    case ArrayField =>
      var item := ZUnknown;
      if f.items.Some? { item := FieldToZod(f.items.value, text); }
      z := ZArray(item);
    }
    if !f.required { z := ZOptional(z); }
  }

  /** The loop over the properties. */
  method FieldsToShape(fs: Fields, text: Value -> string) returns (shape: Shape)
    ensures shape == ShapeOf(fs, text)
    decreases fs, 1
  {
    shape := EmptyShape;
    var rest := fs;
    while rest.MoreFields?
      invariant Append(shape, ShapeOf(rest, text)) == ShapeOf(fs, text)
      invariant rest == fs || rest < fs
      decreases rest
    {
      var z := FieldToZod(rest.field, text);
      AppendAssociative(shape, Entry(rest.field.name, z, EmptyShape), ShapeOf(rest.rest, text));
      shape := Append(shape, Entry(rest.field.name, z, EmptyShape));
      rest := rest.rest;
    }
    AppendAssociative(shape, EmptyShape, EmptyShape);
  }

  // ---- what the schema itself means ----------------------------------------------------------------------

  ghost predicate HasType(ty: Option<TypeName>, v: Value)
  {
    match ty
    case None => true
    case Some(TString) => v.StrValue?
    case Some(TNumber) => v.NumValue?
    case Some(TInteger) => v.NumValue? && IsMultiple(v.n, 1.0)
    case Some(TBoolean) => v.BoolValue?
    case Some(TObject) => v.ObjValue?
    case Some(TArray) => v.ArrValue?
    case Some(TNull) => v.NullValue?
    case _ => false
  }

  /** A way to count a string. */
  type Length = string -> nat

  /** The standard counts characters, JavaScript counts UTF-16 units. */
  const CHARACTERS: Length := (s: string) => |s|
  const UNITS: Length := (s: string) => Utf16Length(s)

  /** The string keywords. */
  predicate StringOk(env: Env, len: Length, s: Schema, x: string)
  {
    && (s.minLength.Some? ==> len(x) >= s.minLength.value)
    && (s.maxLength.Some? ==> len(x) <= s.maxLength.value)
    && (s.pattern.Some? ==> env.matches(s.pattern.value, x))
  }

  ghost predicate NumberOk(s: Schema, n: real)
  {
    && (s.minimum.Some? ==> n >= s.minimum.value)
    && (s.maximum.Some? ==> n <= s.maximum.value)
    && (s.multipleOf.Some? ==> IsMultiple(n, s.multipleOf.value))
  }

  function PropNames(ps: Props): set<string>
  {
    match ps case End => {} case Prop(n, _, rest) => {n} + PropNames(rest)
  }

  /** JSON Schema Validation, draft 2020-12, for the keywords the parser reads: `format` only annotates, and `required`
      (section 6.5.3) asks for the listed names. */
  ghost predicate Validates(env: Env, len: Length, s: Schema, v: Value)
    decreases s
  {
    && HasType(s.ty, v)
    && (s.enumeration.Some? ==> v in s.enumeration.value)
    && (v.StrValue? ==> StringOk(env, len, s, v.s))
    && (v.NumValue? ==> NumberOk(s, v.n))
    && (v.ObjValue? ==>
          && (forall n | Lists(s.required, n) :: n in v.fields)
          && (s.properties.Some? ==> ValidatesProps(env, len, s.properties.value, v.fields))
          && (s.additional == Some(false) ==>
                forall k | k in v.fields :: s.properties.Some? && k in PropNames(s.properties.value)))
    && (v.ArrValue? && s.items.Some? ==>
          forall i | 0 <= i < |v.items| :: Validates(env, len, s.items.value, v.items[i]))
  }

  ghost predicate ValidatesProps(env: Env, len: Length, ps: Props, fields: map<string, Value>)
    decreases ps
  {
    match ps
    case End => true
    case Prop(n, schema, rest) =>
      (n in fields ==> Validates(env, len, schema, fields[n])) && ValidatesProps(env, len, rest, fields)
  }

  // ---- where the two agree -------------------------------------------------------------------------------

  /** The schemas within reach of the form: string, number, boolean, object and array; no enum but on strings, where its
      members meet the other string keywords; no email or uri format without enum; `required` lists declared
      properties; no closed objects. */
  ghost predicate Supported(env: Env, len: Length, s: Schema)
    decreases s
  {
    match s.ty
    case Some(TString) => (
      match s.enumeration
      case None => s.format != Some(Email) && s.format != Some(Uri)
      case Some(vs) => vs != [] && forall x | x in vs && x.StrValue? :: StringOk(env, len, s, x.s))
    case Some(TNumber) => s.enumeration.None?
    case Some(TBoolean) => s.enumeration.None?
    case Some(TObject) =>
      && s.enumeration.None? && !s.required.Flag? && s.additional != Some(false)
      && (forall n | Lists(s.required, n) :: s.properties.Some? && n in PropNames(s.properties.value))
      && (s.properties.Some? ==> SupportedProps(env, len, s.properties.value))
    case Some(TArray) => s.enumeration.None? && (s.items.Some? ==> Supported(env, len, s.items.value))
    case _ => false
  }

  ghost predicate SupportedProps(env: Env, len: Length, ps: Props)
    decreases ps
  {
    match ps
    case End => true
    case Prop(_, schema, rest) => Supported(env, len, schema) && SupportedProps(env, len, rest)
  }

  /** Properties that the form takes to be required because their own schema has a truthy `required`. */
  function Marked(ps: Props): seq<string>
  {
    match ps
    case End => []
    case Prop(n, schema, rest) => (if TruthyRequired(schema.required) then [n] else []) + Marked(rest)
  }

  /** The schema the form enforces: every object also requires its marked properties. */
  function Strengthen(s: Schema): Schema
    decreases s
  {
    var t := match s.properties
      case None => s
      case Some(ps) =>
        s.(properties := Some(StrengthenProps(ps)),
           required := Names((if s.required.Names? then s.required.names else []) + Marked(ps)));
    match s.items case None => t case Some(i) => t.(items := Some(Strengthen(i)))
  }

  function StrengthenProps(ps: Props): Props
    decreases ps
  {
    match ps case End => End case Prop(n, schema, rest) => Prop(n, Strengthen(schema), StrengthenProps(rest))
  }

  /** Wherever a string schema without enum bounds a length, the string meets the same bounds in UTF-16 units and by
      `len`. */
  ghost predicate LengthsAgree(len: Length, s: Schema, v: Value)
    decreases s
  {
    && (v.StrValue? && s.ty == Some(TString) && s.enumeration.None? ==> SameBounds(len, s, v.s))
    && (v.ObjValue? && s.properties.Some? ==> LengthsWithin(len, s.properties.value, v.fields))
    && (v.ArrValue? && s.items.Some? ==>
          forall i | 0 <= i < |v.items| :: LengthsAgree(len, s.items.value, v.items[i]))
  }

  ghost predicate LengthsWithin(len: Length, ps: Props, fields: map<string, Value>)
    decreases ps
  {
    match ps
    case End => true
    case Prop(n, schema, rest) =>
      (n in fields ==> LengthsAgree(len, schema, fields[n])) && LengthsWithin(len, rest, fields)
  }

  predicate SameBounds(len: Length, s: Schema, x: string)
  {
    && (s.minLength.Some? ==> (Utf16Length(x) >= s.minLength.value <==> len(x) >= s.minLength.value))
    && (s.maxLength.Some? ==> (Utf16Length(x) <= s.maxLength.value <==> len(x) <= s.maxLength.value))
  }

  /** In UTF-16 units they always do. */
  lemma {:induction false} UnitsAgree(s: Schema, v: Value)
    ensures LengthsAgree(UNITS, s, v)
    decreases s, 1
  {
    if v.ObjValue? && s.properties.Some? { UnitsAgreeWithin(s.properties.value, v.fields); }
    if v.ArrValue? && s.items.Some? {
      forall i | 0 <= i < |v.items| ensures LengthsAgree(UNITS, s.items.value, v.items[i]) {
        UnitsAgree(s.items.value, v.items[i]);
      }
    }
  }

  lemma {:induction false} UnitsAgreeWithin(ps: Props, fields: map<string, Value>)
    ensures LengthsWithin(UNITS, ps, fields)
    decreases ps, 0
  {
    match ps
    case End =>
    case Prop(n, schema, rest) =>
      if n in fields { UnitsAgree(schema, fields[n]); }
      UnitsAgreeWithin(rest, fields);
  }

  /** Characters and units agree on strings within the basic plane. */
  lemma {:induction false} BasicPlaneAgrees(s: Schema, x: string)
    requires forall c | c in x :: c as int < 0x1_0000
    ensures Utf16Length(x) == |x| && SameBounds(CHARACTERS, s, x)
  {
    if x != [] {
      assert x[0] in x && forall c | c in x[1..] :: c in x;
      BasicPlaneAgrees(s, x[1..]);
    }
  }

  lemma {:induction false} NothingToMeasure(len: Length, ps: Props)
    ensures LengthsWithin(len, ps, map[])
  {
    match ps case End => case Prop(_, _, rest) => NothingToMeasure(len, rest);
  }

  lemma StringChecksAgree(env: Env, len: Length, s: Schema, f: Field, x: string)
    requires f.minLength == s.minLength && f.maxLength == s.maxLength && f.pattern == s.pattern && f.format == s.format
    requires s.format != Some(Email) && s.format != Some(Uri) && SameBounds(len, s, x)
    ensures (forall c | c in StringChecks(f) :: Passes(env, c, StrValue(x))) <==> StringOk(env, len, s, x)
  {
    var a, b := Opt(f.minLength, n => MinLength(n)), Opt(f.maxLength, n => MaxLength(n));
    var c := Opt(f.pattern, p => Matches(p));
    assert StringChecks(f) == a + b + c;
    assert s.minLength.Some? ==> a[0] in StringChecks(f);
    assert s.maxLength.Some? ==> b[0] in StringChecks(f);
    assert s.pattern.Some? ==> c[0] in StringChecks(f);
  }

  lemma NumberChecksAgree(env: Env, s: Schema, f: Field, n: real)
    requires f.minimum == s.minimum && f.maximum == s.maximum && f.multipleOf == s.multipleOf
    ensures (forall c | c in NumberChecks(f) :: Passes(env, c, NumValue(n))) <==> NumberOk(s, n)
  {
    var a, b := Opt(f.minimum, x => AtLeast(x)), Opt(f.maximum, x => AtMost(x));
    var c := Opt(f.multipleOf, x => MultipleOf(x));
    assert NumberChecks(f) == a + b + c;
    assert s.minimum.Some? ==> a[0] in NumberChecks(f);
    assert s.maximum.Some? ==> b[0] in NumberChecks(f);
    assert s.multipleOf.Some? ==> c[0] in NumberChecks(f);
  }

  /** Every marked or listed property is present. */
  ghost predicate RequiredPresent(r: Required, ps: Props, fields: map<string, Value>)
  {
    match ps
    case End => true
    case Prop(n, schema, rest) =>
      (TruthyRequired(schema.required) || Lists(r, n) ==> n in fields) && RequiredPresent(r, rest, fields)
  }

  lemma {:induction false} RequiredPresentMeaning(r: Required, ps: Props, fields: map<string, Value>)
    ensures RequiredPresent(r, ps, fields) <==>
            (forall n | n in Marked(ps) :: n in fields) && forall n | n in PropNames(ps) && Lists(r, n) :: n in fields
  {
    match ps
    case End =>
    case Prop(n, schema, rest) =>
      RequiredPresentMeaning(r, rest, fields);
      assert forall x :: x in Marked(ps) <==> (TruthyRequired(schema.required) && x == n) || x in Marked(rest);
  }

  /** The field of `s` accepts exactly what the strengthened schema validates, and never undefined. */
  ghost predicate SameMeaning(env: Env, len: Length, s: Schema, name: string, text: Value -> string, v: Value)
  {
    && ParseField(name, s).Some?
    && var f := ParseField(name, s).value;
    && f.name == name && f.required == TruthyRequired(s.required)
    && (Accepts(env, CoreOf(f, text), Some(v)) <==> Validates(env, len, Strengthen(s), v))
    && !Accepts(env, CoreOf(f, text), None)
  }

  lemma {:induction false} FieldMeaning(env: Env, len: Length, s: Schema, name: string, text: Value -> string, v: Value)
    requires Supported(env, len, s) && LengthsAgree(len, s, v)
    ensures SameMeaning(env, len, s, name, text, v)
    decreases s, 1
  {
    match s.ty.value
    case TString => StringMeaning(env, len, s, name, text, v);
    case TNumber => NumberMeaning(env, len, s, name, text, v);
    case TObject => ObjectMeaning(env, len, s, name, text, v);
    case TArray => ArrayMeaning(env, len, s, name, text, v);
    case TBoolean =>
  }

  lemma StringMeaning(env: Env, len: Length, s: Schema, name: string, text: Value -> string, v: Value)
    requires Supported(env, len, s) && LengthsAgree(len, s, v) && s.ty == Some(TString)
    ensures SameMeaning(env, len, s, name, text, v)
  {
    var f := ParseField(name, s).value;
    if v.StrValue? && s.enumeration.None? { StringChecksAgree(env, len, s, f, v.s); }
  }

  lemma NumberMeaning(env: Env, len: Length, s: Schema, name: string, text: Value -> string, v: Value)
    requires Supported(env, len, s) && LengthsAgree(len, s, v) && s.ty == Some(TNumber)
    ensures SameMeaning(env, len, s, name, text, v)
  {
    var f := ParseField(name, s).value;
    if v.NumValue? { NumberChecksAgree(env, s, f, v.n); }
  }

  lemma ArrayMeaning(env: Env, len: Length, s: Schema, name: string, text: Value -> string, v: Value)
    requires Supported(env, len, s) && LengthsAgree(len, s, v) && s.ty == Some(TArray)
    ensures SameMeaning(env, len, s, name, text, v)
    decreases s, 0
  {
    if s.items.Some? {
      var item := s.items.value;
      ItemMeaning(env, len, item, text, NullValue);
      if v.ArrValue? {
        forall i | 0 <= i < |v.items|
          ensures Accepts(env, ZodOf(ParseField("item", item).value, text), Some(v.items[i])) <==>
                  Validates(env, len, Strengthen(item), v.items[i])
        {
          ItemMeaning(env, len, item, text, v.items[i]);
        }
      }
      ArrayOfItems(env, len, s, name, text, v);
    }
  }

  lemma ItemMeaning(env: Env, len: Length, item: Schema, text: Value -> string, x: Value)
    requires Supported(env, len, item) && LengthsAgree(len, item, x)
    ensures ParseField("item", item).Some?
    ensures Accepts(env, ZodOf(ParseField("item", item).value, text), Some(x)) <==>
            Validates(env, len, Strengthen(item), x)
    decreases item, 2
  {
    FieldMeaning(env, len, item, "item", text, x);
  }

  lemma ArrayOfItems(env: Env, len: Length, s: Schema, name: string, text: Value -> string, v: Value)
    requires s.ty == Some(TArray) && s.items.Some? && s.enumeration.None? && ParseField("item", s.items.value).Some?
    requires v.ArrValue? ==> forall i | 0 <= i < |v.items| ::
               (Accepts(env, ZodOf(ParseField("item", s.items.value).value, text), Some(v.items[i])) <==>
                Validates(env, len, Strengthen(s.items.value), v.items[i]))
    ensures SameMeaning(env, len, s, name, text, v)
  {
  }

  lemma ObjectMeaning(env: Env, len: Length, s: Schema, name: string, text: Value -> string, v: Value)
    requires Supported(env, len, s) && LengthsAgree(len, s, v) && s.ty == Some(TObject)
    ensures SameMeaning(env, len, s, name, text, v)
    decreases s, 0
  {
    if s.properties.Some? {
      var ps := s.properties.value;
      var fields := if v.ObjValue? then v.fields else map[];
      if !v.ObjValue? { NothingToMeasure(len, ps); }
      PropsMeaning(env, len, s.required, ps, text, fields);
      RequiredPresentMeaning(s.required, ps, fields);
      StrengthenedObject(env, len, s, v);
      ParsedObject(env, s, name, text, v);
    }
  }

  /** What the strengthened schema asks of a value. */
  lemma StrengthenedObject(env: Env, len: Length, s: Schema, v: Value)
    requires s.ty == Some(TObject) && s.properties.Some? && s.enumeration.None? && s.additional != Some(false)
    ensures Validates(env, len, Strengthen(s), v) <==>
            && v.ObjValue?
            && (forall n | Lists(s.required, n) :: n in v.fields)
            && (forall n | n in Marked(s.properties.value) :: n in v.fields)
            && ValidatesProps(env, len, StrengthenProps(s.properties.value), v.fields)
  {
    if v.ObjValue? { StrengthenedNames(s, v.fields); }
    var u := Strengthen(s);
    assert u.ty == s.ty && u.enumeration == s.enumeration && u.additional == s.additional;
    assert u.properties == Some(StrengthenProps(s.properties.value));
  }

  /** What the field of an object accepts. */
  lemma ParsedObject(env: Env, s: Schema, name: string, text: Value -> string, v: Value)
    requires s.ty == Some(TObject) && s.properties.Some? && !s.required.Flag?
    requires ParseProps(s.required, s.properties.value).Some?
    ensures ParseField(name, s).Some?
    ensures var f, fs := ParseField(name, s).value, ParseProps(s.required, s.properties.value).value;
            && f.name == name && f.required == TruthyRequired(s.required)
            && (Accepts(env, CoreOf(f, text), Some(v)) <==>
              v.ObjValue? && AcceptsShape(env, ShapeOf(fs, text), v.fields))
            && !Accepts(env, CoreOf(f, text), None)
  {
  }

  lemma StrengthenedNames(s: Schema, fields: map<string, Value>)
    requires s.properties.Some?
    ensures (forall n | Lists(Strengthen(s).required, n) :: n in fields) <==>
            (forall n | Lists(s.required, n) :: n in fields) &&
            forall n | n in Marked(s.properties.value) :: n in fields
  {
    var own := if s.required.Names? then s.required.names else [];
    assert Strengthen(s).required == Names(own + Marked(s.properties.value));
    assert forall n :: n in own + Marked(s.properties.value) <==> n in own || n in Marked(s.properties.value);
  }

  lemma {:induction false} PropsMeaning(env: Env, len: Length, r: Required, ps: Props, text: Value -> string,
                                        fields: map<string, Value>)
    requires SupportedProps(env, len, ps) && LengthsWithin(len, ps, fields)
    ensures ParseProps(r, ps).Some?
    ensures AcceptsShape(env, ShapeOf(ParseProps(r, ps).value, text), fields) <==>
            ValidatesProps(env, len, StrengthenProps(ps), fields) && RequiredPresent(r, ps, fields)
    decreases ps
  {
    match ps
    case End =>
    case Prop(n, schema, rest) =>
      FieldMeaning(env, len, schema, n, text, if n in fields then fields[n] else NullValue);
      PropsMeaning(env, len, r, rest, text, fields);
      OnePropMeaning(env, len, r, n, schema, text, fields);
  }

  /** One property: absent, it is accepted unless marked or listed; present, its schema decides. */
  lemma OnePropMeaning(env: Env, len: Length, r: Required, n: string, schema: Schema, text: Value -> string,
                       fields: map<string, Value>)
    requires SameMeaning(env, len, schema, n, text, if n in fields then fields[n] else NullValue)
    ensures var f := ParseField(n, schema).value;
            var g := if Lists(r, n) then f.(required := true) else f;
            Accepts(env, ZodOf(g, text), Get(fields, n)) <==>
              if n in fields then Validates(env, len, Strengthen(schema), fields[n])
              else !TruthyRequired(schema.required) && !Lists(r, n)
  {
    CoreIgnoresRequired(ParseField(n, schema).value, text, true);
  }

  /** The form accepts a value exactly when the strengthened schema validates it. */
  lemma FormMeaning(env: Env, len: Length, s: Schema, text: Value -> string, v: Value)
    requires Supported(env, len, s) && LengthsAgree(len, s, v)
    ensures ParseFormSchema(Some(s)).Some?
    ensures Accepts(env, ZodOf(ParseFormSchema(Some(s)).value, text), Some(v)) <==>
            Validates(env, len, Strengthen(s), v)
  {
    FieldMeaning(env, len, s, "root", text, v);
  }

  // ---- when strengthening is harmless ----------------------------------------------------------------------

  /** Every property whose own schema has a truthy `required` is listed as required by the object around it. */
  ghost predicate NestedRequiredListed(s: Schema)
    decreases s
  {
    && (s.properties.Some? ==> NestedListed(s.required, s.properties.value))
    && (s.items.Some? ==> NestedRequiredListed(s.items.value))
  }

  ghost predicate NestedListed(r: Required, ps: Props)
    decreases ps
  {
    match ps
    case End => true
    case Prop(n, schema, rest) =>
      (TruthyRequired(schema.required) ==> Lists(r, n)) && NestedRequiredListed(schema) && NestedListed(r, rest)
  }

  lemma {:induction false} MarkedAreListed(r: Required, ps: Props)
    requires NestedListed(r, ps)
    ensures forall n | n in Marked(ps) :: Lists(r, n)
  {
    match ps case End => case Prop(n, schema, rest) => MarkedAreListed(r, rest);
  }

  /** Every object in the value has the marked properties of the schema that applies to it. */
  ghost predicate MarkedPresent(s: Schema, v: Value)
    decreases s
  {
    && (v.ObjValue? && s.properties.Some? ==>
          (forall n | n in Marked(s.properties.value) :: n in v.fields) && MarkedWithin(s.properties.value, v.fields))
    && (v.ArrValue? && s.items.Some? ==>
          forall i | 0 <= i < |v.items| :: MarkedPresent(s.items.value, v.items[i]))
  }

  ghost predicate MarkedWithin(ps: Props, fields: map<string, Value>)
    decreases ps
  {
    match ps
    case End => true
    case Prop(n, schema, rest) => (n in fields ==> MarkedPresent(schema, fields[n])) && MarkedWithin(rest, fields)
  }

  /** Strengthening a schema asks for its marked properties, and for nothing else. */
  lemma {:induction false} StrengthenMeaning(env: Env, len: Length, s: Schema, v: Value)
    ensures Validates(env, len, Strengthen(s), v) <==> Validates(env, len, s, v) && MarkedPresent(s, v)
    decreases s, 1
  {
    var u := Strengthen(s);
    assert u.ty == s.ty && u.enumeration == s.enumeration && u.additional == s.additional;
    if v.ObjValue? && s.properties.Some? {
      StrengthenPropsMeaning(env, len, s.properties.value, v.fields);
      StrengthenedNames(s, v.fields);
    }
    if v.ArrValue? && s.items.Some? {
      forall i | 0 <= i < |v.items|
        ensures Validates(env, len, Strengthen(s.items.value), v.items[i]) <==>
                Validates(env, len, s.items.value, v.items[i]) && MarkedPresent(s.items.value, v.items[i])
      {
        StrengthenMeaning(env, len, s.items.value, v.items[i]);
      }
    }
  }

  lemma {:induction false} StrengthenPropsMeaning(env: Env, len: Length, ps: Props, fields: map<string, Value>)
    ensures ValidatesProps(env, len, StrengthenProps(ps), fields) <==>
            ValidatesProps(env, len, ps, fields) && MarkedWithin(ps, fields)
    ensures PropNames(StrengthenProps(ps)) == PropNames(ps)
    decreases ps, 0
  {
    match ps
    case End =>
    case Prop(n, schema, rest) =>
      if n in fields { StrengthenMeaning(env, len, schema, fields[n]); }
      StrengthenPropsMeaning(env, len, rest, fields);
  }

  /** If every marked property is listed, a valid value has them all. */
  lemma {:induction false} ListedArePresent(env: Env, len: Length, s: Schema, v: Value)
    requires NestedRequiredListed(s) && Validates(env, len, s, v)
    ensures MarkedPresent(s, v)
    decreases s, 1
  {
    if v.ObjValue? && s.properties.Some? {
      MarkedAreListed(s.required, s.properties.value);
      ListedWithin(env, len, s.required, s.properties.value, v.fields);
    }
    if v.ArrValue? && s.items.Some? {
      forall i | 0 <= i < |v.items| ensures MarkedPresent(s.items.value, v.items[i]) {
        ListedArePresent(env, len, s.items.value, v.items[i]);
      }
    }
  }

  lemma {:induction false} ListedWithin(env: Env, len: Length, r: Required, ps: Props, fields: map<string, Value>)
    requires NestedListed(r, ps) && ValidatesProps(env, len, ps, fields)
    ensures MarkedWithin(ps, fields)
    decreases ps, 0
  {
    match ps
    case End =>
    case Prop(n, schema, rest) =>
      if n in fields { ListedArePresent(env, len, schema, fields[n]); }
      ListedWithin(env, len, r, rest, fields);
  }

  /** On the fragment, the form agrees with the schema about a value exactly if the value is invalid or has every marked
      property. */
  lemma FormAgreesIff(env: Env, len: Length, s: Schema, text: Value -> string, v: Value)
    requires Supported(env, len, s) && LengthsAgree(len, s, v)
    ensures ParseFormSchema(Some(s)).Some?
    ensures var accepts := Accepts(env, ZodOf(ParseFormSchema(Some(s)).value, text), Some(v));
            && (accepts <==> Validates(env, len, s, v) && MarkedPresent(s, v))
            && ((accepts <==> Validates(env, len, s, v)) <==> !Validates(env, len, s, v) || MarkedPresent(s, v))
  {
    FormMeaning(env, len, s, text, v);
    StrengthenMeaning(env, len, s, v);
  }

  /** On the agreeing fragment, compiling the form preserves the meaning of the schema. */
  lemma CompilationPreservesMeaning(env: Env, len: Length, s: Schema, text: Value -> string, v: Value)
    requires Supported(env, len, s) && NestedRequiredListed(s) && LengthsAgree(len, s, v)
    ensures ParseFormSchema(Some(s)).Some?
    ensures Accepts(env, ZodOf(ParseFormSchema(Some(s)).value, text), Some(v)) <==> Validates(env, len, s, v)
  {
    FormAgreesIff(env, len, s, text, v);
    if Validates(env, len, s, v) { ListedArePresent(env, len, s, v); }
  }

  // ---- what the form enforces outside the agreeing fragment ------------------------------------------------

  function Blank(ty: TypeName, required: Required): Schema
  {
    Schema(Some(ty), required, None, None, None, None, None, None, None, None, None, None, None)
  }

  /** The listed names that are declared properties. */
  function Declared(names: seq<string>, ps: Props): (r: seq<string>)
    ensures forall n :: n in r <==> n in names && n in PropNames(ps)
  {
    if names == [] then [] else
    (if names[0] in PropNames(ps) then [names[0]] else []) + Declared(names[1..], ps)
  }

  /** What is left of a schema once the form has dropped what it does not honour: an unknown or missing type is string,
      integer is number, a string enum replaces the other string keywords, other enums and closed objects are ignored,
      and so are required names that are not declared. */
  function Loosen(s: Schema): Schema
    decreases s
  {
    match NormalizeType(s.ty)
    case StringField =>
      var b := Blank(TString, s.required);
      if s.enumeration.Some? && s.enumeration.value != [] then b.(enumeration := s.enumeration)
      else b.(minLength := s.minLength, maxLength := s.maxLength, pattern := s.pattern, format := s.format)
    case NumberField =>
      Blank(TNumber, s.required).(minimum := s.minimum, maximum := s.maximum, multipleOf := s.multipleOf)
    case BooleanField => Blank(TBoolean, s.required)
    case ObjectField => (
      match s.properties
      case None => Blank(TObject, if TruthyRequired(s.required) then Names([]) else Absent)
      case Some(ps) =>
        Blank(TObject, if s.required.Names? then Names(Declared(s.required.names, ps)) else Absent)
          .(properties := Some(LoosenProps(ps))))
    case ArrayField => (
      match s.items
      case None => Blank(TArray, s.required)
      case Some(item) => Blank(TArray, s.required).(items := Some(Loosen(item))))
    case _ => s
  }

  function LoosenProps(ps: Props): (r: Props)
    ensures PropNames(r) == PropNames(ps)
    decreases ps
  {
    match ps case End => End case Prop(n, schema, rest) => Prop(n, Loosen(schema), LoosenProps(rest))
  }

  /** Nowhere an email or uri format that the form would assert, a select or a date. */
  predicate Ordinary(s: Schema)
    decreases s
  {
    match NormalizeType(s.ty)
    case StringField =>
      (s.enumeration.Some? && s.enumeration.value != []) || (s.format != Some(Email) && s.format != Some(Uri))
    case ObjectField => s.properties.Some? ==> OrdinaryProps(s.properties.value)
    case ArrayField => s.items.Some? ==> Ordinary(s.items.value)
    case SelectField => false
    case DateField => false
    case _ => true
  }

  predicate OrdinaryProps(ps: Props)
    decreases ps
  {
    match ps case End => true case Prop(_, schema, rest) => Ordinary(schema) && OrdinaryProps(rest)
  }

  lemma {:induction false} LoosenedIsSupported(env: Env, len: Length, s: Schema)
    requires Ordinary(s)
    ensures Supported(env, len, Loosen(s))
    decreases s
  {
    match NormalizeType(s.ty)
    case ObjectField => if s.properties.Some? { LoosenedPropsSupported(env, len, s.properties.value); }
    case ArrayField => if s.items.Some? { LoosenedIsSupported(env, len, s.items.value); }
    case _ =>
  }

  lemma {:induction false} LoosenedPropsSupported(env: Env, len: Length, ps: Props)
    requires OrdinaryProps(ps)
    ensures SupportedProps(env, len, LoosenProps(ps))
    decreases ps
  {
    match ps
    case End =>
    case Prop(_, schema, rest) =>
      LoosenedIsSupported(env, len, schema);
      LoosenedPropsSupported(env, len, rest);
  }

  /** A schema and its loosened form compile to the same validator. */
  ghost predicate SameField(f: Option<Field>, g: Option<Field>, text: Value -> string)
  {
    f.Some? && g.Some? && f.value.name == g.value.name && f.value.required == g.value.required
    && CoreOf(f.value, text) == CoreOf(g.value, text)
  }

  lemma {:induction false} LoosenedCompilesAlike(name: string, s: Schema, text: Value -> string)
    requires Ordinary(s) && ParseField(name, s).Some?
    ensures SameField(ParseField(name, s), ParseField(name, Loosen(s)), text)
    decreases s, 1
  {
    match NormalizeType(s.ty)
    case StringField => LoosenedString(name, s, text);
    case ObjectField => LoosenedObject(name, s, text);
    case ArrayField => if s.items.Some? { LoosenedCompilesAlike("item", s.items.value, text); }
    case _ =>
  }

  lemma LoosenedString(name: string, s: Schema, text: Value -> string)
    requires NormalizeType(s.ty) == StringField
    ensures SameField(ParseField(name, s), ParseField(name, Loosen(s)), text)
  {
  }

  lemma LoosenedObject(name: string, s: Schema, text: Value -> string)
    requires Ordinary(s) && NormalizeType(s.ty) == ObjectField && ParseField(name, s).Some?
    ensures SameField(ParseField(name, s), ParseField(name, Loosen(s)), text)
    decreases s, 0
  {
    if s.properties.Some? {
      LoosenedProps(s.required, Loosen(s).required, s.properties.value, text);
    }
  }

  lemma {:induction false} LoosenedProps(r: Required, q: Required, ps: Props, text: Value -> string)
    requires OrdinaryProps(ps) && ParseProps(r, ps).Some?
    requires forall n | n in PropNames(ps) :: Lists(r, n) <==> Lists(q, n)
    ensures ParseProps(q, LoosenProps(ps)).Some?
    ensures ShapeOf(ParseProps(r, ps).value, text) == ShapeOf(ParseProps(q, LoosenProps(ps)).value, text)
    decreases ps
  {
    match ps
    case End =>
    case Prop(n, schema, rest) =>
      LoosenedCompilesAlike(n, schema, text);
      LoosenedProps(r, q, rest, text);
      CoreIgnoresRequired(ParseField(n, schema).value, text, true);
      CoreIgnoresRequired(ParseField(n, Loosen(schema)).value, text, true);
  }

  /** Whatever the schema: the form accepts a value exactly when the loosened and strengthened schema validates it. */
  lemma FormEnforces(env: Env, len: Length, s: Schema, text: Value -> string, v: Value)
    requires Ordinary(s) && !HasFlag(s) && LengthsAgree(len, Loosen(s), v)
    ensures ParseFormSchema(Some(s)).Some?
    ensures Accepts(env, ZodOf(ParseFormSchema(Some(s)).value, text), Some(v)) <==>
            Validates(env, len, Strengthen(Loosen(s)), v)
  {
    ParseRaisesIff("root", s);
    LoosenedIsSupported(env, len, s);
    LoosenedCompilesAlike("root", s, text);
    FormMeaning(env, len, Loosen(s), text, v);
  }

  /** Whatever the schema and the value: the form accepts exactly what the loosened and strengthened schema validates
      when lengths are counted in UTF-16 units. */
  lemma FormEnforcesUnits(env: Env, s: Schema, text: Value -> string, v: Value)
    requires Ordinary(s) && !HasFlag(s)
    ensures ParseFormSchema(Some(s)).Some?
    ensures Accepts(env, ZodOf(ParseFormSchema(Some(s)).value, text), Some(v)) <==>
            Validates(env, UNITS, Strengthen(Loosen(s)), v)
  {
    UnitsAgree(Loosen(s), v);
    FormEnforces(env, UNITS, s, text, v);
  }

  /** What the form makes of a type: missing, unknown and null types are text, integers are numbers. */
  lemma TypeMeaning(s: Schema)
    ensures var ty := Loosen(s).ty;
            match s.ty
            case Some(TNumber) => ty == Some(TNumber)
            case Some(TInteger) => ty == Some(TNumber)
            case Some(TBoolean) => ty == Some(TBoolean)
            case Some(TObject) => ty == Some(TObject)
            case Some(TArray) => ty == Some(TArray)
            case Some(TSelect) => ty == Some(TSelect)
            case Some(TDate) => ty == Some(TDate)
            case _ => ty == Some(TString)
  {
  }

  /** What else is left of a schema: bounds on text, unless there is an enum, bounds on numbers, and nothing that
      closes an object. */
  lemma LoosenMeaning(s: Schema)
    requires s.ty !in [Some(TSelect), Some(TDate)]
    ensures var l := Loosen(s);
            && l.additional == None
            && (s.ty in [Some(TNumber), Some(TInteger)] ==>
                  l.minimum == s.minimum && l.maximum == s.maximum && l.multipleOf == s.multipleOf)
            && (s.ty !in [Some(TNumber), Some(TInteger)] ==> l.minimum == l.maximum == l.multipleOf == None)
            && (l.ty == Some(TString) && s.enumeration !in [None, Some([])] ==>
                  l.enumeration == s.enumeration && l.minLength == l.maxLength == None && l.pattern == None)
            && (l.ty == Some(TString) && s.enumeration in [None, Some([])] ==>
                  l.enumeration == None && l.minLength == s.minLength && l.maxLength == s.maxLength &&
                  l.pattern == s.pattern)
            && (l.ty != Some(TString) ==>
                  l.enumeration == None && l.minLength == l.maxLength == None && l.pattern == None)
            && (s.ty == Some(TArray) ==> (l.items.Some? <==> s.items.Some?))
            && (s.ty == Some(TArray) && s.items.Some? ==> l.items == Some(Loosen(s.items.value)))
            && (s.ty == Some(TObject) ==> (l.properties.Some? <==> s.properties.Some?))
            && (s.ty == Some(TObject) && s.properties.Some? ==>
                  forall n :: Lists(l.required, n) <==> Lists(s.required, n) && n in PropNames(s.properties.value))
  {
  }

  /** A format is an extra check on text without an enum. */
  lemma FormatMeaning(env: Env, s: Schema, text: Value -> string, x: string)
    requires s.ty == Some(TString) && s.enumeration in [None, Some([])]
    ensures ParseFormSchema(Some(s)).Some?
    ensures Accepts(env, ZodOf(ParseFormSchema(Some(s)).value, text), Some(StrValue(x))) <==>
            StringOk(env, UNITS, s, x) && (s.format == Some(Email) ==> env.email(x)) &&
            (s.format == Some(Uri) ==> env.url(x))
  {
    var f := ParseFormSchema(Some(s)).value;
    var plain := f.(format := None);
    StringChecksAgree(env, UNITS, s.(format := None), plain, x);
    var more := if s.format == Some(Email) then [IsEmail] else if s.format == Some(Uri) then [IsUrl] else [];
    assert StringChecks(plain) + [] == StringChecks(plain);
    assert StringChecks(f) == StringChecks(plain) + more;
    assert forall c :: c in StringChecks(f) <==> c in StringChecks(plain) || c in more;
    assert more != [] ==> more[0] in more;
  }

  /** A select accepts the texts of its members, or any text if it has none; a date what coercion accepts; and what is
      no schema at all accepts any object. Only what is marked is mandatory. */
  lemma OtherFieldsMeaning(env: Env, s: Schema, text: Value -> string, v: Value)
    ensures s.ty in [Some(TSelect), Some(TDate)] ==> ParseFormSchema(Some(s)).Some?
    ensures s.ty == Some(TSelect) ==>
              (Accepts(env, ZodOf(ParseFormSchema(Some(s)).value, text), Some(v)) <==>
               v.StrValue? &&
               (s.enumeration in [None, Some([])] || exists m :: m in s.enumeration.value && v.s == text(m)))
    ensures s.ty == Some(TDate) ==>
              (Accepts(env, ZodOf(ParseFormSchema(Some(s)).value, text), Some(v)) <==> env.date(Some(v)))
    ensures ParseFormSchema(None).Some? && ParseFormSchema(None).value.name == "root"
    ensures ParseFormSchema(Some(s)).Some? ==> ParseFormSchema(Some(s)).value.name == "root"
    ensures Accepts(env, ZodOf(ParseFormSchema(None).value, text), Some(v)) <==> v.ObjValue?
    ensures Accepts(env, ZodOf(ParseFormSchema(None).value, text), None)
  {
    if s.ty == Some(TSelect) && s.enumeration !in [None, Some([])] {
      var vs := Texts(s.enumeration.value, text);
      assert v in vs <==> v.StrValue? && exists m :: m in s.enumeration.value && v.s == text(m) by {
        if v in vs {
          var i :| 0 <= i < |vs| && vs[i] == v;
          assert s.enumeration.value[i] in s.enumeration.value;
        }
        if m :| v.StrValue? && m in s.enumeration.value && v.s == text(m) {
          var i :| 0 <= i < |vs| && s.enumeration.value[i] == m;
          assert vs[i] == v;
        }
      }
    }
  }

  /** The multiples of a positive number: zero, what is one such number away from one, and nothing in between. */
  lemma MultipleMeaning(n: real, m: real)
    requires m > 0.0
    ensures IsMultiple(0.0, m)
    ensures IsMultiple(n, m) <==> IsMultiple(n + m, m)
    ensures 0.0 < n < m ==> !IsMultiple(n, m)
  {
    var next := n + m;
    assert IsTimes(0.0, 0, m);
    if k: int :| IsTimes(n, k, m) { assert IsTimes(next, k + 1, m); }
    if k: int :| IsTimes(next, k, m) { assert IsTimes(n, k - 1, m); }
    forall k: int | IsTimes(n, k, m) ensures !(0.0 < n < m) { TimesAtLeast(n, k, m); }
  }

  lemma TimesAtLeast(n: real, k: int, m: real)
    requires m > 0.0 && IsTimes(n, k, m)
    ensures n >= m || n <= 0.0
  {
    if k >= 1 {
      assert (k as real - 1.0) * m >= 0.0;
    } else {
      assert k as real * m <= 0.0;
    }
  }

  /** Somewhere in the schema an object with properties has a boolean for `required`. */
  ghost predicate HasFlag(s: Schema)
    decreases s
  {
    || (s.ty == Some(TObject) && s.properties.Some? && (s.required.Flag? || SomeHasFlag(s.properties.value)))
    || (s.ty == Some(TArray) && s.items.Some? && HasFlag(s.items.value))
  }

  ghost predicate SomeHasFlag(ps: Props)
    decreases ps
  {
    match ps case End => false case Prop(_, schema, rest) => HasFlag(schema) || SomeHasFlag(rest)
  }

  /** Parsing raises exactly there. */
  lemma {:induction false} ParseRaisesIff(name: string, s: Schema)
    ensures ParseField(name, s).None? <==> HasFlag(s)
    decreases s
  {
    if s.ty == Some(TObject) && s.properties.Some? { ParsePropsRaisesIff(s.required, s.properties.value); }
    if s.ty == Some(TArray) && s.items.Some? { ParseRaisesIff("item", s.items.value); }
  }

  lemma {:induction false} ParsePropsRaisesIff(required: Required, ps: Props)
    ensures ParseProps(required, ps).None? <==> SomeHasFlag(ps)
    decreases ps
  {
    match ps
    case End =>
    case Prop(n, schema, rest) =>
      ParseRaisesIff(n, schema);
      ParsePropsRaisesIff(required, rest);
  }

  /** An optional object whose own `required` is the empty list becomes mandatory. */
  lemma OptionalObjectBecomesMandatory(env: Env, text: Value -> string)
    ensures var s := Blank(TObject, Absent).(properties := Some(Prop("p", Blank(TObject, Names([])), End)));
            Validates(env, CHARACTERS, s, ObjValue(map[])) &&
            !Accepts(env, ZodOf(ParseFormSchema(Some(s)).value, text), Some(ObjValue(map[])))
  {
    var s := Blank(TObject, Absent).(properties := Some(Prop("p", Blank(TObject, Names([])), End)));
    NothingToMeasure(CHARACTERS, s.properties.value);
    FormMeaning(env, CHARACTERS, s, text, ObjValue(map[]));
    var u := Strengthen(s);
    assert u.required == Names([] + (["p"] + []));
    assert Lists(u.required, "p");
  }

  /** A character beyond the basic plane counts twice in the form and once in the schema. */
  lemma AstralCountsTwice(env: Env, text: Value -> string, c: char)
    requires c as int >= 0x1_0000
    ensures var s, v := Blank(TString, Absent).(minLength := Some(2)), StrValue([c]);
            Accepts(env, ZodOf(ParseFormSchema(Some(s)).value, text), Some(v)) && !Validates(env, CHARACTERS, s, v)
  {
    var s, v := Blank(TString, Absent).(minLength := Some(2)), StrValue([c]);
    var f := ParseFormSchema(Some(s)).value;
    assert StringChecks(f) == [MinLength(2)];
    assert Utf16Length([c]) == 2 + Utf16Length([c][1..]);
    assert Accepts(env, CoreOf(f, text), Some(v));
  }
}
