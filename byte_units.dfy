/** Human-readable scaling of byte counts and byte rates (get_size_gb).

    The scaler divides by 1024 until the value drops below 1024 and labels it
    with the prefix it stopped at. Values are modelled as exact reals; the
    two-decimal rendering is not part of the model, only the unit chosen and
    the scaled value that would be rendered.
 */
module ByteUnits {

  /** The divisor between two successive units. */
  const Factor: real := 1024.0

  /** The unit prefixes, in the order the scaler tries them. */
  const Units: seq<string> := ["", "K", "M", "G", "T", "P"]

  /** Index of the last prefix, "P"; it also labels every value that never dropped below Factor. */
  const TopUnit: nat := 5

  /** Factor raised to the k-th power. */
  function Pow(k: nat): (p: real)
    ensures p >= 1.0
  {
    if k == 0 then 1.0 else Factor * Pow(k - 1)
  }

  /** A scaled value: the index of its prefix in Units and the number shown before it. */
  datatype Scaled = Scaled(unit: nat, value: real)

  /** The prefix shown for a scaled value. */
  function Prefix(s: Scaled): string
    requires s.unit <= TopUnit
  {
    Units[s.unit]
  }

  /** s is what the scaler makes of v: unit is the first index whose scaled value
      v / 1024^unit is below Factor, and value is that scaled value; when no index
      up to TopUnit fits, the loop has divided once more and falls through, so the
      top unit is shown with v / 1024^6. */
  ghost predicate IsScaling(v: real, s: Scaled)
  {
    && s.unit <= TopUnit
    && (forall j :: 0 <= j < s.unit ==> v / Pow(j) >= Factor)
    && (if v / Pow(s.unit) < Factor then s.value == v / Pow(s.unit)
        else s.unit == TopUnit && s.value == v / Pow(TopUnit + 1))
  }

  /** One more division by Factor moves v / 1024^k to v / 1024^(k+1). */
  lemma DivideOnce(v: real, k: nat)
    ensures v / Pow(k) / Factor == v / Pow(k + 1)
  {
    var p := Pow(k);
    assert Pow(k + 1) == Factor * p;
    assert p > 0.0;
  }

  /** The scaler: the loop over the six prefixes, dividing the running value
      after every prefix it does not fit. */
  method GetSize(v: real) returns (s: Scaled)
    ensures IsScaling(v, s)
  {
    var b := v;
    for i := 0 to |Units|
      invariant b == v / Pow(i)
      invariant forall j :: 0 <= j < i ==> v / Pow(j) >= Factor
    {
      if b < Factor {
        return Scaled(i, b);
      }
      DivideOnce(v, i);
      b := b / Factor;
    }
    return Scaled(TopUnit, b);
  }

  /** Dividing by a positive p leaves at least Factor exactly when v is at least Factor * p. */
  lemma DivAtLeastFactor(v: real, p: real)
    requires p > 0.0
    ensures v / p >= Factor <==> v >= Factor * p
  {
  }

  /** The scaling of a value is unique: the contract of GetSize determines its result. */
  lemma ScalingUnique(v: real, s: Scaled, t: Scaled)
    requires IsScaling(v, s) && IsScaling(v, t)
    ensures s == t
  {
  }

  /** Every value below Factor, a negative rate included, gets the empty prefix and is shown unscaled. */
  lemma BelowFactorUnscaled(v: real, s: Scaled)
    requires v < Factor && IsScaling(v, s)
    ensures s == Scaled(0, v) && Prefix(s) == ""
  {
    assert Pow(0) == 1.0;
  }

  /** Pow is increasing. */
  lemma PowMonotone(j: nat, k: nat)
    requires j <= k
    ensures Pow(j) <= Pow(k)
    decreases k
  {
    if j < k {
      PowMonotone(j, k - 1);
    }
  }

  /** Only the fall-through shows a value of Factor or more, and then always with the top prefix "P". */
  lemma OnlyTopUnitOverflows(v: real, s: Scaled)
    requires IsScaling(v, s)
    ensures s.value >= Factor ==> s.unit == TopUnit && Prefix(s) == "P"
    ensures s.unit < TopUnit ==> s.value < Factor
  {
    if v / Pow(s.unit) >= Factor {
      assert s.unit == TopUnit;
    }
  }

  /** From 1024^6 on, the six divisions have all been made and the value is labelled "P"
      with v / 1024^6, however large it is. */
  lemma AtLeastPow6FallsThrough(v: real, s: Scaled)
    requires v >= Pow(TopUnit + 1) && IsScaling(v, s)
    ensures s == Scaled(TopUnit, v / Pow(TopUnit + 1)) && Prefix(s) == "P"
  {
    var k := s.unit;
    PowMonotone(k + 1, TopUnit + 1);
    assert Pow(k + 1) == Factor * Pow(k);
    assert v >= Factor * Pow(k);
    assert v / Pow(k) >= Factor;
  }

  /** A value between 1024^k and 1024^(k+1), for a prefix index k, is shown with the k-th
      prefix and divided k times. */
  lemma ScalingBetweenPowers(v: real, k: nat, s: Scaled)
    requires k <= TopUnit && Pow(k) <= v < Pow(k + 1) && IsScaling(v, s)
    ensures s == Scaled(k, v / Pow(k))
  {
    var u := s.unit;
    DivAtLeastFactor(v, Pow(k));
    assert Pow(k + 1) == Factor * Pow(k);
    if u < k {
      PowMonotone(u + 1, k);
      assert Pow(u + 1) == Factor * Pow(u);
      DivAtLeastFactor(v, Pow(u));
    }
  }

  /** A larger value never gets a smaller prefix. */
  lemma UnitMonotone(v: real, w: real, s: Scaled, t: Scaled)
    requires v <= w && IsScaling(v, s) && IsScaling(w, t)
    ensures s.unit <= t.unit
  {
    if t.unit < s.unit {
      var k := t.unit;
      DivAtLeastFactor(v, Pow(k));
      DivAtLeastFactor(w, Pow(k));
    }
  }

  /** The examples of the doc comment: 1253656 shows as 1.20 with "M" and 1253656678 as
      1.17 with "G" (the value lies in the interval that rounds to the two decimals shown). */
  lemma DocExamples(s: Scaled, t: Scaled)
    requires IsScaling(1253656.0, s) && IsScaling(1253656678.0, t)
    ensures s.unit == 2 && Prefix(s) == "M" && 1.195 <= s.value < 1.205
    ensures t.unit == 3 && Prefix(t) == "G" && 1.165 <= t.value < 1.175
  {
    assert Pow(2) == 1048576.0 && Pow(3) == 1073741824.0 && Pow(4) == 1099511627776.0;
    ScalingBetweenPowers(1253656.0, 2, s);
    ScalingBetweenPowers(1253656678.0, 3, t);
  }

  /** Zero shows as 0 with no prefix, 1536 as 1.5 "K", and 1024^4 as 1 "T". */
  lemma RenderingExamples(a: Scaled, b: Scaled, c: Scaled)
    requires IsScaling(0.0, a) && IsScaling(1536.0, b) && IsScaling(Pow(4), c)
    ensures a == Scaled(0, 0.0) && b == Scaled(1, 1.5) && c == Scaled(4, 1.0)
    ensures Prefix(a) == "" && Prefix(b) == "K" && Prefix(c) == "T"
  {
    BelowFactorUnscaled(0.0, a);
    assert Pow(1) == 1024.0 && Pow(2) == 1048576.0;
    ScalingBetweenPowers(1536.0, 1, b);
    assert Pow(5) == 1024.0 * Pow(4);
    ScalingBetweenPowers(Pow(4), 4, c);
  }

  /** As written, the fall-through labels a value that was divided six times with the
      fifth prefix: 1024^5 and 1024^6 both show as 1 "P", so the shown number times the
      unit no longer gives back the input from 1024^6 on. */
  lemma FallThroughMislabels(s: Scaled, t: Scaled)
    requires IsScaling(Pow(5), s) && IsScaling(Pow(6), t)
    ensures s == Scaled(5, 1.0) && t == Scaled(5, 1.0)
    ensures t.value * Pow(t.unit) != Pow(6)
  {
    assert Pow(6) == Factor * Pow(5);
    ScalingBetweenPowers(Pow(5), 5, s);
    AtLeastPow6FallsThrough(Pow(6), t);
  }

  /** The scaling the prefixes evidently mean: the first prefix whose scaled value is below
      Factor, or the top prefix; and the value shown is always v / 1024^unit. */
  ghost predicate IsIntendedScaling(v: real, s: Scaled)
  {
    && s.unit <= TopUnit
    && (forall j :: 0 <= j < s.unit ==> v / Pow(j) >= Factor)
    && (s.unit < TopUnit ==> v / Pow(s.unit) < Factor)
    && s.value == v / Pow(s.unit)
  }

  /** Under the corrected scaling, the number shown times the unit it is labelled with is
      the input. */
  lemma IntendedRoundTrip(v: real, s: Scaled)
    requires IsIntendedScaling(v, s)
    ensures s.value * Pow(s.unit) == v
  {
    var p := Pow(s.unit);
    assert p > 0.0;
    assert (v / p) * p == v;
  }

  /** The corrected scaler: it stops dividing at the top prefix, so the number shown
      times the unit it is labelled with is the input, for every input. */
  method GetSizeIntended(v: real) returns (s: Scaled)
    ensures IsIntendedScaling(v, s)
    ensures s.value * Pow(s.unit) == v
  {
    var b := v;
    var i := 0;
    while i < TopUnit && b >= Factor
      invariant 0 <= i <= TopUnit
      invariant b == v / Pow(i)
      invariant forall j :: 0 <= j < i ==> v / Pow(j) >= Factor
    {
      DivideOnce(v, i);
      b := b / Factor;
      i := i + 1;
    }
    s := Scaled(i, b);
    IntendedRoundTrip(v, s);
  }

  /** The corrected scaling agrees with the code everywhere below 1024^6, where the
      fall-through is not taken. */
  lemma IntendedAgreesBelowPow6(v: real, s: Scaled, t: Scaled)
    requires v < Pow(TopUnit + 1) && IsScaling(v, s) && IsIntendedScaling(v, t)
    ensures s == t
  {
    assert Pow(TopUnit + 1) == Factor * Pow(TopUnit);
    DivAtLeastFactor(v, Pow(TopUnit));
  }
}
