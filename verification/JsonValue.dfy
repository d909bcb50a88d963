/**
 json11 values and their comparisons. A `std::map` is a sequence of fields in increasing key
 order; numbers are 32-bit ints or doubles, which may be infinite but not NaN.
 */
module JsonValue {
  import opened Bytes

  /** A double that is not NaN. */
  datatype Extended = Finite(r: real) | PlusInfinity | MinusInfinity

  datatype Num = Int(i: int) | Double(x: Extended)

  datatype Json =
    | Null
    | Number(num: Num)
    | Bool(b: bool)
    | Str(s: bytes)
    | Arr(items: seq<Json>)
    | Obj(fields: seq<Field>)

  datatype Field = Field(key: bytes, value: Json)

  /** The `Json::Type` tags, in their order. */
  function Tag(v: Json): nat {
    match v
    case Null => 0
    case Number(_) => 1
    case Bool(_) => 2
    case Str(_) => 3
    case Arr(_) => 4
    case Obj(_) => 5
  }

  /** `number_value` */
  function NumberValue(n: Num): Extended {
    match n
    case Int(i) => Finite(i as real)
    case Double(x) => x
  }

  /** `<` on doubles. */
  predicate ExtendedLess(a: Extended, b: Extended) {
    match (a, b)
    case (Finite(x), Finite(y)) => x < y
    case (Finite(_), PlusInfinity) => true
    case (MinusInfinity, _) => b != MinusInfinity
    case _ => false
  }

  /** `std::string::operator<`: bytes compare as unsigned. */
  predicate StringLess(a: bytes, b: bytes) {
    if b == [] then false
    else if a == [] then true
    else if a[0] < b[0] then true
    else if b[0] < a[0] then false
    else StringLess(a[1..], b[1..])
  }

  ghost function Size(v: Json): nat
    decreases v, 0
  {
    match v
    case Arr(xs) => 1 + SizeItems(xs)
    case Obj(xs) => 1 + SizeFields(xs)
    case _ => 1
  }

  ghost function SizeItems(xs: seq<Json>): nat
    decreases xs, 1
  {
    if xs == [] then 0 else 1 + Size(xs[0]) + SizeItems(xs[1..])
  }

  ghost function SizeFields(xs: seq<Field>): nat
    decreases xs, 1
  {
    if xs == [] then 0 else 1 + Size(xs[0].value) + SizeFields(xs[1..])
  }

  // ---------------------------------------------------------------- operator==

  predicate Equal(a: Json, b: Json)
    decreases a, 0
  {
    match (a, b)
    case (Null, Null) => true
    case (Number(m), Number(n)) => NumberValue(m) == NumberValue(n)
    case (Bool(x), Bool(y)) => x == y
    case (Str(x), Str(y)) => x == y
    case (Arr(xs), Arr(ys)) => EqualItems(xs, ys)
    case (Obj(xs), Obj(ys)) => EqualFields(xs, ys)
    case _ => false
  }

  predicate EqualItems(xs: seq<Json>, ys: seq<Json>)
    decreases xs, 1
  {
    |xs| == |ys| && (xs == [] || (Equal(xs[0], ys[0]) && EqualItems(xs[1..], ys[1..])))
  }

  predicate EqualFields(xs: seq<Field>, ys: seq<Field>)
    decreases xs, 1
  {
    |xs| == |ys| && (xs == [] ||
      (xs[0].key == ys[0].key && Equal(xs[0].value, ys[0].value) && EqualFields(xs[1..], ys[1..])))
  }

  // ---------------------------------------------------------------- operator<

  predicate Less(a: Json, b: Json)
    decreases Size(a) + Size(b), 0
  {
    if Tag(a) != Tag(b) then Tag(a) < Tag(b) else
    match (a, b)
    case (Number(m), Number(n)) => ExtendedLess(NumberValue(m), NumberValue(n))
    case (Bool(x), Bool(y)) => !x && y
    case (Str(x), Str(y)) => StringLess(x, y)
    case (Arr(xs), Arr(ys)) => LessItems(xs, ys)
    case (Obj(xs), Obj(ys)) => LessFields(xs, ys)
    case _ => false
  }

  /** `std::lexicographical_compare` over `operator<` alone. */
  predicate LessItems(xs: seq<Json>, ys: seq<Json>)
    decreases SizeItems(xs) + SizeItems(ys), 1
  {
    if ys == [] then false
    else if xs == [] then true
    else if Less(xs[0], ys[0]) then true
    else if Less(ys[0], xs[0]) then false
    else LessItems(xs[1..], ys[1..])
  }

  /** `std::pair::operator<` on a map element. */
  predicate LessField(x: Field, y: Field)
    decreases Size(x.value) + Size(y.value), 1
  {
    StringLess(x.key, y.key) || (!StringLess(y.key, x.key) && Less(x.value, y.value))
  }

  predicate LessFields(xs: seq<Field>, ys: seq<Field>)
    decreases SizeFields(xs) + SizeFields(ys), 2
  {
    if ys == [] then false
    else if xs == [] then true
    else if LessField(xs[0], ys[0]) then true
    else if LessField(ys[0], xs[0]) then false
    else LessFields(xs[1..], ys[1..])
  }

  // ---------------------------------------------------------------- strings are totally ordered

  lemma {:induction false} StringTrichotomy(a: bytes, b: bytes)
    ensures (StringLess(a, b) && a != b && !StringLess(b, a))
         || (!StringLess(a, b) && a == b && !StringLess(b, a))
         || (!StringLess(a, b) && a != b && StringLess(b, a))
    decreases |a|
  {
    if a != [] && b != [] {
      StringTrichotomy(a[1..], b[1..]);
      assert a == [a[0]] + a[1..] && b == [b[0]] + b[1..];
    }
  }

  lemma {:induction false} StringTransitive(a: bytes, b: bytes, c: bytes)
    requires StringLess(a, b) && StringLess(b, c)
    ensures StringLess(a, c)
    decreases |a|
  {
    if a != [] && a[0] == b[0] == c[0] {
      StringTransitive(a[1..], b[1..], c[1..]);
    }
  }

  // ---------------------------------------------------------------- a strict total order up to ==

  /** Exactly one of the three. */
  predicate OneOf(p: bool, q: bool, r: bool) {
    (p && !q && !r) || (!p && q && !r) || (!p && !q && r)
  }

  lemma {:induction false} Trichotomy(a: Json, b: Json)
    ensures OneOf(Less(a, b), Equal(a, b), Less(b, a))
    decreases Size(a) + Size(b), 0
  {
    if Tag(a) == Tag(b) {
      match a
      case Str(x) => StringTrichotomy(x, b.s);
      case Arr(xs) => TrichotomyItems(xs, b.items);
      case Obj(xs) => TrichotomyFields(xs, b.fields);
      case _ =>
    }
  }

  lemma {:induction false} TrichotomyItems(xs: seq<Json>, ys: seq<Json>)
    ensures OneOf(LessItems(xs, ys), EqualItems(xs, ys), LessItems(ys, xs))
    decreases SizeItems(xs) + SizeItems(ys), 1
  {
    if xs != [] && ys != [] {
      Trichotomy(xs[0], ys[0]);
      TrichotomyItems(xs[1..], ys[1..]);
    }
  }

  ghost predicate EqualField(x: Field, y: Field) {
    x.key == y.key && Equal(x.value, y.value)
  }

  lemma {:induction false} TrichotomyField(x: Field, y: Field)
    ensures OneOf(LessField(x, y), EqualField(x, y), LessField(y, x))
    decreases Size(x.value) + Size(y.value), 1
  {
    StringTrichotomy(x.key, y.key);
    Trichotomy(x.value, y.value);
  }

  lemma {:induction false} TrichotomyFields(xs: seq<Field>, ys: seq<Field>)
    ensures OneOf(LessFields(xs, ys), EqualFields(xs, ys), LessFields(ys, xs))
    decreases SizeFields(xs) + SizeFields(ys), 2
  {
    if xs != [] && ys != [] {
      TrichotomyField(xs[0], ys[0]);
      TrichotomyFields(xs[1..], ys[1..]);
    }
  }

  /** The four ways in which two comparisons compose. */
  predicate Composes(ab: bool, bc: bool, ac: bool, eqab: bool, eqbc: bool, eqac: bool) {
    && (ab && bc ==> ac)
    && (eqab && bc ==> ac)
    && (ab && eqbc ==> ac)
    && (eqab && eqbc ==> eqac)
  }

  /** Both relations are transitive, also through each other. */
  lemma {:induction false} Transitivity(a: Json, b: Json, c: Json)
    ensures Composes(Less(a, b), Less(b, c), Less(a, c), Equal(a, b), Equal(b, c), Equal(a, c))
    decreases Size(a) + Size(b) + Size(c), 0
  {
    if Tag(a) == Tag(b) == Tag(c) {
      match a
      case Str(x) =>
        if StringLess(x, b.s) && StringLess(b.s, c.s) { StringTransitive(x, b.s, c.s); }
      case Arr(xs) => TransitivityItems(xs, b.items, c.items);
      case Obj(xs) => TransitivityFields(xs, b.fields, c.fields);
      case _ =>
    }
  }

  lemma {:induction false} TransitivityItems(xs: seq<Json>, ys: seq<Json>, zs: seq<Json>)
    ensures Composes(LessItems(xs, ys), LessItems(ys, zs), LessItems(xs, zs),
                     EqualItems(xs, ys), EqualItems(ys, zs), EqualItems(xs, zs))
    decreases SizeItems(xs) + SizeItems(ys) + SizeItems(zs), 1
  {
    if xs != [] && ys != [] && zs != [] {
      Trichotomy(xs[0], ys[0]);
      Trichotomy(ys[0], zs[0]);
      Trichotomy(xs[0], zs[0]);
      Transitivity(xs[0], ys[0], zs[0]);
      TransitivityItems(xs[1..], ys[1..], zs[1..]);
    }
  }

  lemma {:induction false} TransitivityField(x: Field, y: Field, z: Field)
    ensures Composes(LessField(x, y), LessField(y, z), LessField(x, z),
                     EqualField(x, y), EqualField(y, z), EqualField(x, z))
    decreases Size(x.value) + Size(y.value) + Size(z.value), 1
  {
    StringTrichotomy(x.key, y.key);
    StringTrichotomy(y.key, z.key);
    StringTrichotomy(x.key, z.key);
    if StringLess(x.key, y.key) && StringLess(y.key, z.key) { StringTransitive(x.key, y.key, z.key); }
    Transitivity(x.value, y.value, z.value);
  }

  lemma {:induction false} TransitivityFields(xs: seq<Field>, ys: seq<Field>, zs: seq<Field>)
    ensures Composes(LessFields(xs, ys), LessFields(ys, zs), LessFields(xs, zs),
                     EqualFields(xs, ys), EqualFields(ys, zs), EqualFields(xs, zs))
    decreases SizeFields(xs) + SizeFields(ys) + SizeFields(zs), 2
  {
    if xs != [] && ys != [] && zs != [] {
      TrichotomyField(xs[0], ys[0]);
      TrichotomyField(ys[0], zs[0]);
      TrichotomyField(xs[0], zs[0]);
      TransitivityField(xs[0], ys[0], zs[0]);
      TransitivityFields(xs[1..], ys[1..], zs[1..]);
    }
  }

  /** `operator<` is a strict total order up to `operator==`, which is an equivalence. */
  lemma StrictTotalOrder(a: Json, b: Json, c: Json)
    ensures OneOf(Less(a, b), Equal(a, b), Less(b, a))
    ensures Less(a, b) && Less(b, c) ==> Less(a, c)
    ensures Equal(a, a) && (Equal(a, b) ==> Equal(b, a)) && (Equal(a, b) && Equal(b, c) ==> Equal(a, c))
    ensures Equal(a, b) ==> (Less(a, c) <==> Less(b, c)) && (Less(c, a) <==> Less(c, b))
  {
    Trichotomy(a, b);
    Trichotomy(b, a);
    Trichotomy(a, a);
    Transitivity(a, b, c);
    Transitivity(b, a, c);
    Transitivity(c, a, b);
    Transitivity(c, b, a);
  }

  // ---------------------------------------------------------------- which way round

  /** Null, numbers, bools with false first, strings, arrays, objects. */
  lemma KindsInOrder(n: Num, b: bool, s: bytes, xs: seq<Json>, fs: seq<Field>)
    ensures Less(Null, Number(n)) && Less(Number(n), Bool(b)) && Less(Bool(b), Str(s)) && Less(Str(s), Arr(xs))
    ensures Less(Arr(xs), Obj(fs)) && Less(Bool(false), Bool(true))
  {
  }

  /** Numbers compare by their values, ints with doubles too. */
  lemma NumbersByValue(i: int, j: int, x: real, y: real)
    ensures Less(Number(Int(i)), Number(Int(j))) <==> i < j
    ensures Less(Number(Int(i)), Number(Double(Finite(x)))) <==> i as real < x
    ensures Less(Number(Double(Finite(x))), Number(Int(i))) <==> x < i as real
    ensures Less(Number(Double(Finite(x))), Number(Double(Finite(y)))) <==> x < y
    ensures Less(Number(Double(MinusInfinity)), Number(Int(i))) && Less(Number(Int(i)), Number(Double(PlusInfinity)))
    ensures Less(Number(Double(MinusInfinity)), Number(Double(Finite(x))))
    ensures Less(Number(Double(Finite(x))), Number(Double(PlusInfinity)))
  {
  }

  /** Strings compare at the first byte in which they differ; a proper prefix is less. */
  lemma {:induction false} StringsByFirstDifference(a: bytes, b: bytes, k: nat)
    requires k <= |a| && k < |b| && a[..k] == b[..k] && (k < |a| ==> a[k] < b[k])
    ensures Less(Str(a), Str(b)) && StringLess(a, b)
    decreases k
  {
    if k > 0 {
      assert a[0] == a[..k][0] == b[..k][0] == b[0];
      assert a[1..][..k - 1] == a[..k][1..] == b[..k][1..] == b[1..][..k - 1];
      StringsByFirstDifference(a[1..], b[1..], k - 1);
    }
  }

  /** So do arrays, at the first elements that are not equal. */
  lemma {:induction false} ArraysByFirstDifference(xs: seq<Json>, ys: seq<Json>, k: nat)
    requires k <= |xs| && k < |ys| && (forall i :: 0 <= i < k ==> Equal(xs[i], ys[i]))
    requires k < |xs| ==> Less(xs[k], ys[k])
    ensures Less(Arr(xs), Arr(ys)) && LessItems(xs, ys)
    decreases k
  {
    if k > 0 {
      Trichotomy(xs[0], ys[0]);
      hide Less, Equal;
      ArraysByFirstDifference(xs[1..], ys[1..], k - 1);
    }
    ItemsDecide(xs, ys);
  }

  lemma ItemsDecide(xs: seq<Json>, ys: seq<Json>)
    ensures Less(Arr(xs), Arr(ys)) <==> LessItems(xs, ys)
  {
  }

  /** And objects, at the first member that differs: by its key, or by its value if the keys are the same. */
  lemma {:induction false} ObjectsByFirstDifference(xs: seq<Field>, ys: seq<Field>, k: nat)
    requires k <= |xs| && k < |ys| && (forall i :: 0 <= i < k ==> EqualField(xs[i], ys[i]))
    requires k < |xs| ==>
               StringLess(xs[k].key, ys[k].key) || (xs[k].key == ys[k].key && Less(xs[k].value, ys[k].value))
    ensures Less(Obj(xs), Obj(ys)) && LessFields(xs, ys)
    decreases k
  {
    if k > 0 {
      Trichotomy(xs[0].value, ys[0].value);
      StringTrichotomy(xs[0].key, ys[0].key);
      hide Less, Equal;
      ObjectsByFirstDifference(xs[1..], ys[1..], k - 1);
    } else if xs != [] {
      StringTrichotomy(xs[0].key, ys[0].key);
    }
    FieldsDecide(xs, ys);
  }

  lemma FieldsDecide(xs: seq<Field>, ys: seq<Field>)
    ensures Less(Obj(xs), Obj(ys)) <==> LessFields(xs, ys)
  {
  }
}
