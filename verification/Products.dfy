/** Products of reals, looked up only where they are named. */
module Products {
  /** Names a product; its value is looked up only where this stands. */
  predicate Product(a: real, b: real) {
    true
  }

  ghost predicate Multiplies(f: (real, real) -> real) {
    forall a, b {:trigger Product(a, b)} :: Product(a, b) ==> f(a, b) == a * b
  }

  ghost function Times(a: real, b: real): real {
    assert Multiplies((a: real, b: real) => a * b);
    var f :| Multiplies(f);
    f(a, b)
  }

  lemma TimesIs(a: real, b: real)
    ensures Times(a, b) == a * b
  {
    assert Product(a, b);
  }

  lemma TimesOne(a: real)
    ensures Times(0.0, a) == 0.0 && Times(1.0, a) == a
  {
    TimesIs(0.0, a);
    TimesIs(1.0, a);
  }

  lemma TimesDifference(a: real, b: real, c: real)
    ensures Times(a - b, c) == Times(a, c) - Times(b, c)
  {
    TimesIs(a, c);
    TimesIs(b, c);
    TimesIs(a - b, c);
  }

  lemma TimesInside(a: real, c: real)
    requires 0.0 <= a <= 1.0 && c >= 0.0
    ensures 0.0 <= Times(a, c) <= c
  {
    TimesIs(a, c);
    assert a * c >= 0.0 && (1.0 - a) * c >= 0.0;
    assert (1.0 - a) * c == c - a * c;
  }

  lemma TimesHalf(a: real, c: real)
    requires 0.0 <= a <= 0.5 && c >= 0.0
    ensures 0.0 <= 2.0 * Times(a, c) <= c
  {
    TimesIs(a, c);
    TimesIs(2.0 * a, c);
    TimesInside(2.0 * a, c);
    assert (2.0 * a) * c == 2.0 * (a * c);
  }
}
