/**
 The numbering that deriving Finite gives to a sum of products: variants one after the other,
 and within a variant the fields as digits of a mixed-radix number, first field lowest.
 */
module Finite {
  import opened Basics

  /** A type with a lawful hand-written numbering, or one that derives it. */
  datatype Type = Base(cardinality: nat) | Sum(variants: Variants)
  datatype Variants = Never | Or(fields: Fields, others: Variants)
  datatype Fields = Unit | And(first: Type, rest: Fields)

  /** A value of a base type is known by its number. */
  datatype Value = Atom(number: nat) | Choice(variant: nat, values: Values)
  datatype Values = Nil | Cons(head: Value, tail: Values)

  predicate HasType(v: Value, t: Type)
    decreases t
  {
    match t
    case Base(n) => v.Atom? && v.number < n
    case Sum(vs) => v.Choice? && Chosen(v.variant, v.values, vs)
  }

  predicate Chosen(i: nat, xs: Values, vs: Variants)
    decreases vs
  {
    vs.Or? && if i == 0 then HaveTypes(xs, vs.fields) else Chosen(i - 1, xs, vs.others)
  }

  predicate HaveTypes(xs: Values, fs: Fields)
    decreases fs
  {
    match fs
    case Unit => xs.Nil?
    case And(t, rest) => xs.Cons? && HasType(xs.head, t) && HaveTypes(xs.tail, rest)
  }

  // ----- The generated code -----

  function Cardinality(t: Type): nat {
    match t
    case Base(n) => n
    case Sum(vs) => CardinalityOfSum(vs)
  }

  function CardinalityOfSum(vs: Variants): nat {
    match vs
    case Never => 0
    case Or(fs, others) => Product(fs) + CardinalityOfSum(others)
  }

  function Product(fs: Fields): nat {
    match fs
    case Unit => 1
    case And(t, rest) => Cardinality(t) * Product(rest)
  }

  function ToNat(v: Value, t: Type): nat
    requires HasType(v, t)
    decreases t
  {
    match t
    case Base(_) => v.number
    case Sum(vs) => VariantToNat(v.variant, v.values, vs, 0)
  }

  /** One arm of the generated match: past counts the values of the variants before. */
  function VariantToNat(i: nat, xs: Values, vs: Variants, past: nat): nat
    requires Chosen(i, xs, vs)
    decreases vs
  {
    if i == 0 then past + FieldsToNat(xs, vs.fields, 1)
    else VariantToNat(i - 1, xs, vs.others, past + Product(vs.fields))
  }

  /** The sum of the fields' numbers, each times the cardinalities of the fields before. */
  function FieldsToNat(xs: Values, fs: Fields, past: nat): nat
    requires HaveTypes(xs, fs)
    decreases fs
  {
    match fs
    case Unit => 0
    case And(t, rest) => past * ToNat(xs.head, t) + FieldsToNat(xs.tail, rest, past * Cardinality(t))
  }

  function FromNat(n: nat, t: Type): Value
    requires n < Cardinality(t)
    decreases t
  {
    match t
    case Base(_) => Atom(n)
    case Sum(vs) => VariantFromNat(n, vs, 0, 0)
  }

  function VariantFromNat(n: nat, vs: Variants, past: nat, i: nat): Value
    requires past <= n < past + CardinalityOfSum(vs)
    decreases vs
  {
    if n < past + Product(vs.fields) then Choice(i, FieldsFromNat(n - past, vs.fields, 1))
    else VariantFromNat(n, vs.others, past + Product(vs.fields), i + 1)
  }

  function FieldsFromNat(m: nat, fs: Fields, past: nat): Values
    requires 0 < past && 0 < Product(fs)
    decreases fs
  {
    match fs
    case Unit => Nil
    case And(t, rest) =>
      FactorsPositive(Cardinality(t), Product(rest), past);
      Cons(FromNat((m / past) % Cardinality(t), t), FieldsFromNat(m, rest, past * Cardinality(t)))
  }

  lemma FactorsPositive(a: nat, b: nat, c: nat)
    requires 0 < a * b && 0 < c
    ensures 0 < a && 0 < b && 0 < c * a
  {}

  // ----- Arithmetic of digits -----

  lemma DigitBelow(x: nat, c: nat, h: nat, p: nat)
    requires x < c && h < p
    ensures x + c * h < c * p
  {
    assert c * (h + 1) <= c * p;
    assert c * (h + 1) == c * h + c;
  }

  /** The fields as one number, without the running product. */
  ghost function Digits(xs: Values, fs: Fields): nat
    requires HaveTypes(xs, fs)
  {
    match fs
    case Unit => 0
    case And(t, rest) => ToNat(xs.head, t) + Cardinality(t) * Digits(xs.tail, rest)
  }

  lemma {:induction false} FieldsAreDigits(xs: Values, fs: Fields, past: nat)
    requires HaveTypes(xs, fs)
    ensures FieldsToNat(xs, fs, past) == past * Digits(xs, fs)
    decreases fs
  {
    match fs
    case Unit =>
    case And(t, rest) =>
      var c, x, d := Cardinality(t), ToNat(xs.head, t), Digits(xs.tail, rest);
      FieldsAreDigits(xs.tail, rest, past * c);
      assert past * c * d == past * (c * d);
      assert past * x + past * (c * d) == past * (x + c * d);
  }

  // ----- Numbers are below the cardinality -----

  lemma {:induction false} ToNatBelow(v: Value, t: Type)
    requires HasType(v, t)
    ensures ToNat(v, t) < Cardinality(t)
    decreases t
  {
    if t.Sum? {
      VariantBelow(v.variant, v.values, t.variants, 0);
    }
  }

  lemma {:induction false} VariantBelow(i: nat, xs: Values, vs: Variants, past: nat)
    requires Chosen(i, xs, vs)
    ensures past <= VariantToNat(i, xs, vs, past) < past + CardinalityOfSum(vs)
    decreases vs
  {
    hide Product, Digits, FieldsToNat, FieldsFromNat, HaveTypes;
    if i == 0 {
      DigitsBelow(xs, vs.fields);
      FieldsAreDigits(xs, vs.fields, 1);
    } else {
      VariantBelow(i - 1, xs, vs.others, past + Product(vs.fields));
    }
  }

  lemma {:induction false} DigitsBelow(xs: Values, fs: Fields)
    requires HaveTypes(xs, fs)
    ensures Digits(xs, fs) < Product(fs)
    decreases fs
  {
    match fs
    case Unit =>
    case And(t, rest) =>
      ToNatBelow(xs.head, t);
      DigitsBelow(xs.tail, rest);
      DigitBelow(ToNat(xs.head, t), Cardinality(t), Digits(xs.tail, rest), Product(rest));
  }

  // ----- from_nat undoes to_nat -----

  lemma {:induction false} FromToNat(v: Value, t: Type)
    requires HasType(v, t)
    ensures ToNat(v, t) < Cardinality(t) && FromNat(ToNat(v, t), t) == v
    decreases t
  {
    ToNatBelow(v, t);
    if t.Sum? {
      VariantBelow(v.variant, v.values, t.variants, 0);
      VariantFromTo(v.variant, v.values, t.variants, 0, 0);
    }
  }

  lemma {:induction false} VariantFromTo(i: nat, xs: Values, vs: Variants, past: nat, j: nat)
    requires Chosen(i, xs, vs)
    ensures past <= VariantToNat(i, xs, vs, past) < past + CardinalityOfSum(vs)
    ensures VariantFromNat(VariantToNat(i, xs, vs, past), vs, past, j) == Choice(j + i, xs)
    decreases vs
  {
    hide Product, Digits, FieldsToNat, FieldsFromNat, HaveTypes;
    VariantBelow(i, xs, vs, past);
    if i == 0 {
      DigitsBelow(xs, vs.fields);
      FieldsAreDigits(xs, vs.fields, 1);
      FieldsFromTo(xs, vs.fields, Digits(xs, vs.fields), 1);
    } else {
      VariantBelow(i - 1, xs, vs.others, past + Product(vs.fields));
      VariantFromTo(i - 1, xs, vs.others, past + Product(vs.fields), j + 1);
    }
  }

  lemma {:induction false} FieldsFromTo(xs: Values, fs: Fields, m: nat, past: nat)
    requires HaveTypes(xs, fs) && 0 < past && m / past == Digits(xs, fs)
    ensures 0 < Product(fs) && FieldsFromNat(m, fs, past) == xs
    decreases fs
  {
    DigitsBelow(xs, fs);
    match fs
    case Unit =>
    case And(t, rest) =>
      var c := Cardinality(t);
      FromToNat(xs.head, t);
      FactorsPositive(c, Product(rest), past);
      UniqueQuotient(m / past, c, Digits(xs.tail, rest), ToNat(xs.head, t));
      DivideTwice(m, past, c);
      FieldsFromTo(xs.tail, rest, m, past * c);
  }

  // ----- to_nat undoes from_nat -----

  lemma {:induction false} ToFromNat(n: nat, t: Type)
    requires n < Cardinality(t)
    ensures HasType(FromNat(n, t), t) && ToNat(FromNat(n, t), t) == n
    decreases t
  {
    if t.Sum? {
      VariantToFrom(n, t.variants, 0, 0);
    }
  }

  lemma {:induction false} VariantToFrom(n: nat, vs: Variants, past: nat, j: nat)
    requires past <= n < past + CardinalityOfSum(vs)
    ensures var v := VariantFromNat(n, vs, past, j);
      && v.Choice? && j <= v.variant && Chosen(v.variant - j, v.values, vs)
      && VariantToNat(v.variant - j, v.values, vs, past) == n
    decreases vs
  {
    hide Product, Digits, FieldsToNat, FieldsFromNat, HaveTypes;
    if n < past + Product(vs.fields) {
      var m := n - past;
      FieldsToFrom(m, vs.fields, 1, m);
      FieldsAreDigits(FieldsFromNat(m, vs.fields, 1), vs.fields, 1);
    } else {
      VariantToFrom(n, vs.others, past + Product(vs.fields), j + 1);
    }
  }

  lemma {:induction false} FieldsToFrom(m: nat, fs: Fields, past: nat, q: nat)
    requires 0 < past && 0 < Product(fs) && q == m / past && q < Product(fs)
    ensures HaveTypes(FieldsFromNat(m, fs, past), fs) && Digits(FieldsFromNat(m, fs, past), fs) == q
    decreases fs
  {
    if fs.And? {
      var past', q', r := Unfolded(m, fs.first, fs.rest, past, q);
      hide *;
      ToFromNat(r, fs.first);
      FieldsToFrom(m, fs.rest, past', q');
      ConsDigits(FromNat(r, fs.first), FieldsFromNat(m, fs.rest, past'), fs.first, fs.rest, r, q', q);
    }
  }

  /** The first field's number and what is left for the others. */
  lemma Unfolded(m: nat, t: Type, rest: Fields, past: nat, q: nat) returns (past': nat, q': nat, r: nat)
    requires 0 < past && 0 < Product(And(t, rest)) && q == m / past && q < Product(And(t, rest))
    ensures 0 < past' && 0 < Product(rest) && q' == m / past' && q' < Product(rest)
    ensures r < Cardinality(t) && r + Cardinality(t) * q' == q
    ensures FieldsFromNat(m, And(t, rest), past) == Cons(FromNat(r, t), FieldsFromNat(m, rest, past'))
  {
    hide Cardinality, FromNat;
    var c := Cardinality(t);
    FactorsPositive(c, Product(rest), past);
    past', q', r := past * c, q / c, q % c;
    DivideTwice(m, past, c);
    QuotientBelow(q, c, Product(rest));
  }

  lemma ConsDigits(x: Value, xs: Values, t: Type, rest: Fields, r: nat, q': nat, q: nat)
    requires HasType(x, t) && HaveTypes(xs, rest)
    requires ToNat(x, t) == r && Digits(xs, rest) == q' && r + Cardinality(t) * q' == q
    ensures HaveTypes(Cons(x, xs), And(t, rest)) && Digits(Cons(x, xs), And(t, rest)) == q
  {
    hide Cardinality, ToNat, HasType;
  }

  // ----- The order of the numbers -----

  /** Variants in order, and within one the fields from the last to the first. */
  ghost predicate Before(v: Value, w: Value, t: Type)
    requires HasType(v, t) && HasType(w, t)
    decreases t
  {
    match t
    case Base(_) => v.number < w.number
    case Sum(vs) => VariantBefore(v.variant, v.values, w.variant, w.values, vs)
  }

  ghost predicate VariantBefore(i: nat, xs: Values, j: nat, ys: Values, vs: Variants)
    requires Chosen(i, xs, vs) && Chosen(j, ys, vs)
    decreases vs
  {
    if i == 0 && j == 0 then FieldsBefore(xs, ys, vs.fields)
    else if i == 0 || j == 0 then i < j
    else VariantBefore(i - 1, xs, j - 1, ys, vs.others)
  }

  ghost predicate FieldsBefore(xs: Values, ys: Values, fs: Fields)
    requires HaveTypes(xs, fs) && HaveTypes(ys, fs)
    decreases fs
  {
    match fs
    case Unit => false
    case And(t, rest) =>
      FieldsBefore(xs.tail, ys.tail, rest) || (xs.tail == ys.tail && Before(xs.head, ys.head, t))
  }

  lemma DigitOrder(x: nat, h: nat, y: nat, k: nat, c: nat)
    requires x < c && y < c
    ensures x + c * h < y + c * k <==> h < k || (h == k && x < y)
  {
    assert h < k ==> c * (h + 1) <= c * k;
    assert k < h ==> c * (k + 1) <= c * h;
  }

  lemma SameDigits(xs: Values, ys: Values, fs: Fields)
    requires HaveTypes(xs, fs) && HaveTypes(ys, fs) && Digits(xs, fs) == Digits(ys, fs)
    ensures xs == ys
  {
    FieldsFromTo(xs, fs, Digits(xs, fs), 1);
    FieldsFromTo(ys, fs, Digits(ys, fs), 1);
  }

  /**
   Numbers grow in the order of the values.  As they are the numbers below the cardinality, each
   used once, this leaves no other numbering.
   */
  lemma {:induction false} InOrder(v: Value, w: Value, t: Type)
    requires HasType(v, t) && HasType(w, t)
    ensures ToNat(v, t) < ToNat(w, t) <==> Before(v, w, t)
    decreases t
  {
    if t.Sum? {
      VariantsInOrder(v.variant, v.values, w.variant, w.values, t.variants, 0);
    }
  }

  lemma {:induction false} VariantsInOrder(i: nat, xs: Values, j: nat, ys: Values, vs: Variants, past: nat)
    requires Chosen(i, xs, vs) && Chosen(j, ys, vs)
    ensures VariantToNat(i, xs, vs, past) < VariantToNat(j, ys, vs, past) <==> VariantBefore(i, xs, j, ys, vs)
    decreases vs
  {
    hide Product, Digits, FieldsToNat, HaveTypes, FieldsBefore;
    if i == 0 {
      DigitsBelow(xs, vs.fields);
      FieldsAreDigits(xs, vs.fields, 1);
    }
    if j == 0 {
      DigitsBelow(ys, vs.fields);
      FieldsAreDigits(ys, vs.fields, 1);
    }
    if i == 0 && j == 0 {
      FieldsInOrder(xs, ys, vs.fields);
    } else {
      if 0 < i { VariantBelow(i - 1, xs, vs.others, past + Product(vs.fields)); }
      if 0 < j { VariantBelow(j - 1, ys, vs.others, past + Product(vs.fields)); }
      if 0 < i && 0 < j {
        VariantsInOrder(i - 1, xs, j - 1, ys, vs.others, past + Product(vs.fields));
      }
    }
  }

  lemma {:induction false} FieldsInOrder(xs: Values, ys: Values, fs: Fields)
    requires HaveTypes(xs, fs) && HaveTypes(ys, fs)
    ensures Digits(xs, fs) < Digits(ys, fs) <==> FieldsBefore(xs, ys, fs)
    decreases fs
  {
    hide Before, Cardinality, HasType;
    if fs.And? {
      var t, rest := fs.first, fs.rest;
      ToNatBelow(xs.head, t);
      ToNatBelow(ys.head, t);
      InOrder(xs.head, ys.head, t);
      FieldsInOrder(xs.tail, ys.tail, rest);
      if Digits(xs.tail, rest) == Digits(ys.tail, rest) { SameDigits(xs.tail, ys.tail, rest); }
      hide ToNat;
      DigitOrder(ToNat(xs.head, t), Digits(xs.tail, rest), ToNat(ys.head, t), Digits(ys.tail, rest), Cardinality(t));
    }
  }
}
