// The template parameter IntType of rational: a type about which nothing is known but its operations. What is
// written against it can compute with these and in no other way, and only where the result fits.
module IntTypes {
  import opened NumberTheory

  // The integer a value of the type stands for, and how large integers may become.
  datatype Meaning<!T> = Meaning(value: T -> int, bounded: bool, bound: nat) {
    predicate Fits(x: int) {
      !bounded || Abs(x) <= bound
    }
  }

  datatype IntType<!T(!new)> = IntType(
    zero: T,
    one: T,
    neg: T --> T,
    add: (T, T) --> T,
    sub: (T, T) --> T,
    mul: (T, T) --> T,
    div: (T, T) --> T,
    mod: (T, T) --> T,
    gcd: (T, T) --> T,
    lcm: (T, T) --> T,
    less: (T, T) -> bool,
    equal: (T, T) -> bool)
  {
    ghost predicate Constants(m: Meaning<T>) {
      m.value(zero) == 0 && m.value(one) == 1
    }

    ghost predicate Negates(m: Meaning<T>) {
      forall a {:trigger neg.requires(a)} :: m.Fits(-m.value(a)) ==> neg.requires(a) && m.value(neg(a)) == -m.value(a)
    }

    ghost predicate Adds(m: Meaning<T>) {
      forall a, b {:trigger add.requires(a, b)} :: m.Fits(m.value(a) + m.value(b)) ==>
        add.requires(a, b) && m.value(add(a, b)) == m.value(a) + m.value(b)
    }

    ghost predicate Subtracts(m: Meaning<T>) {
      forall a, b {:trigger sub.requires(a, b)} :: m.Fits(m.value(a) - m.value(b)) ==>
        sub.requires(a, b) && m.value(sub(a, b)) == m.value(a) - m.value(b)
    }

    ghost predicate Multiplies(m: Meaning<T>) {
      forall a, b {:trigger mul.requires(a, b)} :: m.Fits(m.value(a) * m.value(b)) ==>
        mul.requires(a, b) && m.value(mul(a, b)) == m.value(a) * m.value(b)
    }

    ghost predicate Divides(m: Meaning<T>) {
      forall a, b {:trigger div.requires(a, b)} :: m.value(b) != 0 && m.Fits(TDiv(m.value(a), m.value(b))) ==>
        div.requires(a, b) && m.value(div(a, b)) == TDiv(m.value(a), m.value(b))
    }

    ghost predicate Remains(m: Meaning<T>) {
      forall a, b {:trigger mod.requires(a, b)} :: m.value(b) != 0 && m.Fits(TMod(m.value(a), m.value(b))) ==>
        mod.requires(a, b) && m.value(mod(a, b)) == TMod(m.value(a), m.value(b))
    }

    ghost predicate FindsGcd(m: Meaning<T>) {
      forall a, b {:trigger gcd.requires(a, b)} :: m.Fits(NumberTheory.Gcd(m.value(a), m.value(b))) ==>
        gcd.requires(a, b) && m.value(gcd(a, b)) == NumberTheory.Gcd(m.value(a), m.value(b))
    }

    ghost predicate FindsLcm(m: Meaning<T>) {
      forall a, b {:trigger lcm.requires(a, b)} :: m.Fits(NumberTheory.Lcm(m.value(a), m.value(b))) ==>
        lcm.requires(a, b) && m.value(lcm(a, b)) == NumberTheory.Lcm(m.value(a), m.value(b))
    }

    ghost predicate Compares(m: Meaning<T>) {
      && (forall a, b {:trigger less(a, b)} :: less(a, b) <==> m.value(a) < m.value(b))
      && (forall a, b {:trigger equal(a, b)} :: equal(a, b) <==> m.value(a) == m.value(b))
    }

    // The operations do what those of C++ do, wherever the result fits.
    ghost predicate Computes(m: Meaning<T>) {
      && Constants(m) && Negates(m) && Adds(m) && Subtracts(m) && Multiplies(m) && Divides(m) && Remains(m)
      && FindsGcd(m) && FindsLcm(m) && Compares(m)
    }

    method Neg(a: T, ghost m: Meaning<T>) returns (c: T)
      requires Computes(m) && m.Fits(-m.value(a))
      ensures m.value(c) == -m.value(a)
    {
      assert Negates(m);
      c := neg(a);
    }

    method Add(a: T, b: T, ghost m: Meaning<T>) returns (c: T)
      requires Computes(m) && m.Fits(m.value(a) + m.value(b))
      ensures m.value(c) == m.value(a) + m.value(b)
    {
      assert Adds(m);
      c := add(a, b);
    }

    method Sub(a: T, b: T, ghost m: Meaning<T>) returns (c: T)
      requires Computes(m) && m.Fits(m.value(a) - m.value(b))
      ensures m.value(c) == m.value(a) - m.value(b)
    {
      assert Subtracts(m);
      c := sub(a, b);
    }

    method Mul(a: T, b: T, ghost m: Meaning<T>) returns (c: T)
      requires Computes(m) && m.Fits(m.value(a) * m.value(b))
      ensures m.value(c) == m.value(a) * m.value(b)
    {
      assert Multiplies(m);
      c := mul(a, b);
    }

    method Div(a: T, b: T, ghost m: Meaning<T>) returns (c: T)
      requires Computes(m) && m.value(b) != 0 && m.Fits(TDiv(m.value(a), m.value(b)))
      ensures m.value(c) == TDiv(m.value(a), m.value(b))
    {
      assert Divides(m);
      c := div(a, b);
    }

    method Mod(a: T, b: T, ghost m: Meaning<T>) returns (c: T)
      requires Computes(m) && m.value(b) != 0 && m.Fits(TMod(m.value(a), m.value(b)))
      ensures m.value(c) == TMod(m.value(a), m.value(b))
    {
      assert Remains(m);
      c := mod(a, b);
    }

    method Gcd(a: T, b: T, ghost m: Meaning<T>) returns (c: T)
      requires Computes(m) && m.Fits(NumberTheory.Gcd(m.value(a), m.value(b)))
      ensures m.value(c) == NumberTheory.Gcd(m.value(a), m.value(b))
    {
      assert FindsGcd(m);
      c := gcd(a, b);
    }

    method Lcm(a: T, b: T, ghost m: Meaning<T>) returns (c: T)
      requires Computes(m) && m.Fits(NumberTheory.Lcm(m.value(a), m.value(b)))
      ensures m.value(c) == NumberTheory.Lcm(m.value(a), m.value(b))
    {
      assert FindsLcm(m);
      c := lcm(a, b);
    }

    method Less(a: T, b: T, ghost m: Meaning<T>) returns (c: bool)
      requires Computes(m)
      ensures c <==> m.value(a) < m.value(b)
    {
      assert Compares(m);
      c := less(a, b);
    }

    method Equal(a: T, b: T, ghost m: Meaning<T>) returns (c: bool)
      requires Computes(m)
      ensures c <==> m.value(a) == m.value(b)
    {
      assert Compares(m);
      c := equal(a, b);
    }
  }

  // The unbounded integers, which also do for every bound.
  const INTEGERS: IntType<int> := IntType(
    0,
    1,
    x => -x,
    (x, y) => x + y,
    (x, y) => x - y,
    (x, y) => x * y,
    (x, y) requires y != 0 => TDiv(x, y),
    (x, y) requires y != 0 => TMod(x, y),
    (x, y) => NumberTheory.Gcd(x, y),
    (x, y) => NumberTheory.Lcm(x, y),
    (x, y) => x < y,
    (x, y) => x == y)

  lemma IntegersCompute(bounded: bool, bound: nat)
    ensures INTEGERS.Computes(Meaning(x => x, bounded, bound))
  {
    var m: Meaning<int> := Meaning(x => x, bounded, bound);
    assert INTEGERS.Constants(m) && INTEGERS.Negates(m) && INTEGERS.Adds(m) && INTEGERS.Subtracts(m);
    assert INTEGERS.Multiplies(m) && INTEGERS.Divides(m) && INTEGERS.Remains(m);
    assert INTEGERS.FindsGcd(m) && INTEGERS.FindsLcm(m) && INTEGERS.Compares(m);
  }

  // A machine word with as many negative as positive values, whose operations are there only where the result is
  // in range.
  const MAX: int := 0x7FFF_FFFF
  newtype Word32 = x: int | -MAX <= x <= MAX

  predicate InRange(x: int) {
    -MAX <= x <= MAX
  }

  const WORDS: IntType<Word32> := IntType(
    0,
    1,
    x => -x,
    (x, y) requires InRange(x as int + y as int) => x + y,
    (x, y) requires InRange(x as int - y as int) => x - y,
    (x, y) requires InRange(x as int * y as int) => x * y,
    (x, y) requires y != 0 && InRange(TDiv(x as int, y as int)) => TDiv(x as int, y as int) as Word32,
    (x, y) requires y != 0 && InRange(TMod(x as int, y as int)) => TMod(x as int, y as int) as Word32,
    (x, y) requires InRange(NumberTheory.Gcd(x as int, y as int)) => NumberTheory.Gcd(x as int, y as int) as Word32,
    (x, y) requires InRange(NumberTheory.Lcm(x as int, y as int)) => NumberTheory.Lcm(x as int, y as int) as Word32,
    (x, y) => x < y,
    (x, y) => x == y)

  lemma WordsCompute()
    ensures WORDS.Computes(Meaning(x => x as int, true, MAX))
  {
    WordsAdd();
    WordsDivide();
    WordsFindDivisors();
  }

  lemma WordsAdd()
    ensures var m: Meaning<Word32> := Meaning(x => x as int, true, MAX);
            WORDS.Constants(m) && WORDS.Negates(m) && WORDS.Adds(m) && WORDS.Subtracts(m) && WORDS.Compares(m)
  {
  }

  lemma WordsDivide()
    ensures var m: Meaning<Word32> := Meaning(x => x as int, true, MAX);
            WORDS.Multiplies(m) && WORDS.Divides(m) && WORDS.Remains(m)
  {
  }

  lemma WordsFindDivisors()
    ensures var m: Meaning<Word32> := Meaning(x => x as int, true, MAX);
            WORDS.FindsGcd(m) && WORDS.FindsLcm(m)
  {
  }
}
