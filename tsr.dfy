/**
 * A single Task-Space Region (tsr.py, class TSR): two fixed transforms T0_w and Tw_e and a
 * 6x2 box Bw in the local chart [x y z roll pitch yaw]. The pure operations work on the
 * state of a TSR; the class `Tsr` is the heap object whose T0_w a chain overwrites.
 */
module Tsrs {
  import opened Outcomes
  import opened Geometry
  import opened Records

  /** The attributes of a TSR object. */
  datatype TsrState = TsrState(T0_w: Transform, Tw_e: Transform, Bw: Box, manipIndex: int, bodyAndLink: string)

  /** The arguments of the TSR constructor, with its defaults; `None` is an omitted argument. */
  datatype TsrArgs = TsrArgs(T0_w: Option<Transform> := None, Tw_e: Option<Transform> := None,
                             Bw: Option<Box> := None, manip: Option<int> := None,
                             bodyAndLink: string := "NULL")

  /** NANBW: the all-unconstrained pose, the default sampling input. */
  const NANBW: seq<Entry> := [NaN, NaN, NaN, NaN, NaN, NaN]

  predicate RowTooWide(iv: Interval) {
    iv.hi - iv.lo > TWO_PI + EPSILON
  }

  /** The construction-time invariant: no row of Bw, translational or rotational, is wider than 2*pi + EPSILON. */
  predicate BoxWithinTwoPi(bw: Box) {
    forall i :: 0 <= i < 6 ==> !RowTooWide(bw[i])
  }

  predicate WellFormed(t: TsrState) {
    BoxWithinTwoPi(t.Bw)
  }

  /** Every row of Bw has min <= max. */
  predicate Ordered(bw: Box) {
    forall i :: 0 <= i < 6 ==> bw[i].lo <= bw[i].hi
  }

  /** TSR.__init__: validate Bw when given, and default the omitted arguments. */
  function Construct(a: TsrArgs): (r: Result<TsrState>)
    ensures r.Err? <==> a.Bw.Some? && exists i :: 0 <= i < 6 && a.Bw.value[i].hi - a.Bw.value[i].lo > TWO_PI + EPSILON
    ensures r.Err? ==> r.error == BwRangeTooWide
    ensures r.Ok? ==> WellFormed(r.value)
    ensures r.Ok? ==> r.value.T0_w == (if a.T0_w.Some? then a.T0_w.value else Identity())
    ensures r.Ok? ==> r.value.Tw_e == (if a.Tw_e.Some? then a.Tw_e.value else Identity())
    ensures r.Ok? ==> r.value.Bw == (if a.Bw.Some? then a.Bw.value else ZeroBox())
    ensures r.Ok? ==> r.value.manipIndex == (if a.manip.Some? then a.manip.value else -1)
    ensures r.Ok? ==> r.value.bodyAndLink == a.bodyAndLink
  {
    if a.Bw.Some? && !BoxWithinTwoPi(a.Bw.value) then Err(BwRangeTooWide)
    else Ok(TsrState(a.T0_w.GetOr(Identity()), a.Tw_e.GetOr(Identity()), a.Bw.GetOr(ZeroBox()),
                     a.manip.GetOr(-1), a.bodyAndLink))
  }

  /** TSR() with every argument omitted: identity frames, a zero box, no manipulator, body "NULL". */
  lemma ConstructDefaults()
    ensures Construct(TsrArgs()) == Ok(TsrState(Identity(), Identity(), ZeroBox(), -1, "NULL"))
  {
  }

  /** `[-4, 4]` on roll is rejected at construction; the full circle `[-pi, pi]` is accepted. */
  lemma ConstructRollRange()
    ensures Construct(TsrArgs(Bw := Some(ZeroBox()[3 := Interval(-4.0, 4.0)]))) == Err(BwRangeTooWide)
    ensures Construct(TsrArgs(Bw := Some(ZeroBox()[3 := Interval(-PI, PI)]))).Ok?
  {
    assert RowTooWide(ZeroBox()[3 := Interval(-4.0, 4.0)][3]);
  }

  /** The check of entry i against row i of Bw, NaN not ignored (NaN compares False). */
  predicate DofValid(bw: Box, i: nat, e: Entry)
    requires i < 6
  {
    match e
    case NaN => false
    case Val(x) => if i < 3 then WithinInterval(bw[i], x) else RotationWithin(bw[i], x)
  }

  predicate AllTrue(check: seq<bool>) {
    forall i :: 0 <= i < |check| ==> check[i]
  }

  /**
   * TSR.is_valid. The translational part looks at the first min(|x|, 3) entries, the rotational
   * part at entries 3 up to min(|x|, 6); with ignoreNAN the NaN entries are then forced to True,
   * which numpy refuses when the pose is longer than the check vector.
   */
  function Check(t: TsrState, x: seq<Entry>, ignoreNan: bool): (r: Result<seq<bool>>)
    ensures r.Err? <==> ignoreNan && |x| > 6
    ensures r.Err? ==> r.error == MaskLengthMismatch
    ensures r.Ok? ==> |r.value| == (if |x| < 6 then |x| else 6)
    ensures r.Ok? ==> forall i :: 0 <= i < |r.value| ==>
      (r.value[i] <==> (ignoreNan && x[i].NaN?) || DofValid(t.Bw, i, x[i]))
  {
    var n := if |x| < 6 then |x| else 6;
    var raw := seq(n, i requires 0 <= i < n => DofValid(t.Bw, i, x[i]));
    if !ignoreNan then Ok(raw)
    else if |x| != n then Err(MaskLengthMismatch)
    else Ok(seq(n, i requires 0 <= i < n => raw[i] || x[i].NaN?))
  }

  /**
   * The translational entries of is_valid: entry i < 3 is True iff x_i is NaN and NaNs are
   * ignored, or x_i is a number within [min - EPSILON, max + EPSILON].
   */
  lemma CheckTranslation(t: TsrState, x: seq<Entry>, ignoreNan: bool, i: nat)
    requires i < 3 && i < |x| <= 6
    ensures Check(t, x, ignoreNan).Ok?
    ensures Check(t, x, ignoreNan).value[i] <==>
      if x[i].NaN? then ignoreNan else t.Bw[i].lo - EPSILON <= x[i].v <= t.Bw[i].hi + EPSILON
  {
  }

  /**
   * The rotational entries of is_valid: entry 3 <= i < 6 of a number is True iff some turn of it
   * by whole circles lies within [min - EPSILON, max + EPSILON], so angles a whole number of
   * circles apart get the same verdict.
   */
  lemma CheckRotation(t: TsrState, x: seq<Entry>, ignoreNan: bool, i: nat, k: int)
    requires 3 <= i < |x| <= 6 && x[i].Val?
    ensures Check(t, x, ignoreNan).Ok? && Check(t, x[i := Val(Turn(x[i].v, k))], ignoreNan).Ok?
    ensures Check(t, x, ignoreNan).value[i] <==> exists j :: WithinInterval(t.Bw[i], Turn(x[i].v, j))
    ensures Check(t, x[i := Val(Turn(x[i].v, k))], ignoreNan).value[i] == Check(t, x, ignoreNan).value[i]
  {
    RotationWithinIff(t.Bw[i], x[i].v);
    RotationWithinTurn(t.Bw[i], x[i].v, k);
  }

  /** The chart vector [x y z yaw pitch roll] of a pose [x y z roll pitch yaw]. */
  function ChartOf(x: seq<Entry>): seq<real>
    requires |x| == 6 && forall i :: 0 <= i < 6 ==> x[i].Val?
  {
    [x[0].v, x[1].v, x[2].v, x[5].v, x[4].v, x[3].v]
  }

  /**
   * TSR.to_transform, with the validity test as intended (reject unless every entry of the
   * check is True): T0_w * Tw(x y z yaw pitch roll) * Tw_e.
   */
  function ToTransform(t: TsrState, x: seq<Entry>): (r: Result<Transform>)
    ensures |x| != 6 ==> r == Err(WrongLength)
    ensures |x| == 6 ==> (r.Ok? <==> forall i :: 0 <= i < 6 ==> DofValid(t.Bw, i, x[i]))
    ensures |x| == 6 && r.Err? ==> r.error == InvalidPose
    ensures r.Ok? ==> (forall i :: 0 <= i < 6 ==> x[i].Val?)
    ensures r.Ok? ==>
      r.value == Compose(Compose(t.T0_w, ChartToTransform([x[0].v, x[1].v, x[2].v, x[5].v, x[4].v, x[3].v])), t.Tw_e)
  {
    if |x| != 6 then Err(WrongLength)
    else
      var check := Check(t, x, false).value;
      if !AllTrue(check) then Err(InvalidPose)
      else
        assert forall i :: 0 <= i < 6 ==> check[i];
        Ok(Compose(Compose(t.T0_w, ChartToTransform(ChartOf(x))), t.Tw_e))
  }

  /**
   * TSR.to_transform as written: `not self.is_valid(xyzrpy)` applies `not` to a 6-element
   * numpy array, which raises for every pose that got past the length test.
   */
  function ToTransformAsWritten(t: TsrState, x: seq<Entry>): (r: Result<Transform>)
    ensures r.Err?
    ensures r.error == (if |x| != 6 then WrongLength else AmbiguousTruthValue)
  {
    if |x| != 6 then Err(WrongLength)
    else
      var check := Check(t, x, false).value;
      Err(AmbiguousTruthValue)
  }

  /** The all-zero pose of the default TSR is valid, yet the as-written transform raises on it. */
  lemma AsWrittenRejectsValidPose()
    ensures var t := Construct(TsrArgs());
      var x := [Val(0.0), Val(0.0), Val(0.0), Val(0.0), Val(0.0), Val(0.0)];
      t.Ok? && ToTransform(t.value, x).Ok? && ToTransformAsWritten(t.value, x) == Err(AmbiguousTruthValue)
  {
    var t := Construct(TsrArgs()).value;
    assert Mod2Pi(EPSILON) == EPSILON by { Mod2PiOfRemainder(EPSILON); }
    forall i | 3 <= i < 6 ensures RotationWithin(t.Bw[i], 0.0) {}
  }

  /** Validity of a pose does not depend on T0_w: a chain may overwrite it without changing the verdict. */
  lemma ToTransformOkIgnoresFrame(t: TsrState, frame: Transform, x: seq<Entry>)
    ensures ToTransform(t.(T0_w := frame), x).Ok? == ToTransform(t, x).Ok?
  {
  }

  /** The value drawn for a NaN entry of row iv from a uniform draw u. */
  function Draw(iv: Interval, u: real): real {
    iv.lo + (iv.hi - iv.lo) * u
  }

  /** A draw u in [0, 1) lands in [min, max], and below max when the row has width. */
  lemma DrawWithin(iv: Interval, u: real)
    requires iv.lo <= iv.hi && 0.0 <= u < 1.0
    ensures iv.lo <= Draw(iv, u) <= iv.hi
    ensures iv.lo < iv.hi ==> Draw(iv, u) < iv.hi
  {
    var w := iv.hi - iv.lo;
    assert Draw(iv, u) == iv.lo + w * u;
    assert 0.0 <= w * u;
    assert w * u <= w by {
      assert w * u <= w * 1.0;
    }
    if iv.lo < iv.hi {
      assert w * u < w * 1.0;
    }
  }

  /**
   * TSR.sample_xyzrpy with draws[i] the uniform sample used for entry i. It raises when a
   * concrete entry fails is_valid(..., ignoreNAN=True); otherwise concrete entries pass through
   * unchanged and NaN entries are drawn from their rows.
   */
  function SampleXyzrpy(t: TsrState, x: seq<Entry>, draws: seq<real>): (r: Result<seq<Entry>>)
    requires |draws| == 6
    ensures |x| > 6 ==> r == Err(MaskLengthMismatch)
    ensures r.Ok? <==> |x| <= 6 && forall i :: 0 <= i < |x| && x[i].Val? ==> DofValid(t.Bw, i, x[i])
    ensures |x| <= 6 && r.Err? ==> r.error == OutOfBounds(Check(t, x, true).value)
    ensures r.Ok? ==> |r.value| == |x| && forall i :: 0 <= i < |x| ==>
      r.value[i] == if x[i].NaN? then Val(Draw(t.Bw[i], draws[i])) else x[i]
  {
    var check :- Check(t, x, true);
    if !AllTrue(check) then
      Err(OutOfBounds(check))
    else
      assert forall i :: 0 <= i < |x| && x[i].Val? ==> DofValid(t.Bw, i, x[i]) by {
        forall i | 0 <= i < |x| && x[i].Val? ensures DofValid(t.Bw, i, x[i]) {
          assert check[i];
        }
      }
      Ok(seq(|x|, i requires 0 <= i < |x| => if x[i].NaN? then Val(Draw(t.Bw[i], draws[i])) else x[i]))
  }

  predicate UnitDraws(draws: seq<real>) {
    forall i :: 0 <= i < |draws| ==> 0.0 <= draws[i] < 1.0
  }

  /** Every sampled entry is a number within its row of Bw when the row is ordered. */
  lemma SampleWithinBounds(t: TsrState, x: seq<Entry>, draws: seq<real>)
    requires |draws| == 6 && UnitDraws(draws) && Ordered(t.Bw)
    requires SampleXyzrpy(t, x, draws).Ok?
    ensures forall i :: 0 <= i < |x| ==> SampleXyzrpy(t, x, draws).value[i].Val?
    ensures forall i :: 0 <= i < |x| && x[i].NaN? ==>
      t.Bw[i].lo <= SampleXyzrpy(t, x, draws).value[i].v <= t.Bw[i].hi
  {
    forall i | 0 <= i < |x| && x[i].NaN? ensures t.Bw[i].lo <= Draw(t.Bw[i], draws[i]) <= t.Bw[i].hi {
      DrawWithin(t.Bw[i], draws[i]);
    }
  }

  /** TSR.sample: the transform of a sampled pose. */
  function Sample(t: TsrState, x: seq<Entry>, draws: seq<real>): (r: Result<Transform>)
    requires |draws| == 6
    ensures r.Ok? ==> |x| == 6 && SampleXyzrpy(t, x, draws).Ok?
  {
    var s :- SampleXyzrpy(t, x, draws);
    ToTransform(t, s)
  }

  /**
   * Sampling an ordered TSR never produces an invalid pose: when every concrete entry of a
   * 6-long input is valid, the sample passes is_valid entry by entry and `sample` returns
   * the transform of the sampled chart vector.
   */
  lemma SampleIsValid(t: TsrState, x: seq<Entry>, draws: seq<real>)
    requires |x| == 6 && |draws| == 6 && UnitDraws(draws) && Ordered(t.Bw)
    requires forall i :: 0 <= i < 6 && x[i].Val? ==> DofValid(t.Bw, i, x[i])
    ensures SampleXyzrpy(t, x, draws).Ok?
    ensures var s := SampleXyzrpy(t, x, draws).value;
      |s| == 6 && Check(t, s, false).Ok? && AllTrue(Check(t, s, false).value) &&
      Sample(t, x, draws) == Ok(Compose(Compose(t.T0_w, ChartToTransform(ChartOf(s))), t.Tw_e))
  {
    var s := SampleXyzrpy(t, x, draws).value;
    SampleWithinBounds(t, x, draws);
    forall i | 0 <= i < 6 ensures DofValid(t.Bw, i, s[i]) {
      if x[i].NaN? {
        if i >= 3 {
          RotationWithinOfInterval(t.Bw[i], s[i].v);
        }
      }
    }
  }

  /** The default input samples every entry, so an ordered TSR always yields a valid transform. */
  lemma DefaultSampleIsValid(t: TsrState, draws: seq<real>)
    requires |draws| == 6 && UnitDraws(draws) && Ordered(t.Bw)
    ensures Sample(t, NANBW, draws).Ok?
  {
    SampleIsValid(t, NANBW, draws);
  }

  /** TSR.to_dict. */
  function TsrToDict(t: TsrState): (d: Record)
    ensures d.Keys == {"T0_w", "Tw_e", "Bw", "manipindex", "bodyandlink"}
  {
    map["T0_w" := VTransform(t.T0_w), "Tw_e" := VTransform(t.Tw_e), "Bw" := VBox(t.Bw),
        "manipindex" := VInt(t.manipIndex), "bodyandlink" := VStr(t.bodyAndLink)]
  }

  /** The three required keys are present with matrix values, the two optional ones absent or of the right kind. */
  predicate TsrDictShaped(d: Record) {
    && "T0_w" in d && d["T0_w"].VTransform?
    && "Tw_e" in d && d["Tw_e"].VTransform?
    && "Bw" in d && d["Bw"].VBox?
    && ("manipindex" in d ==> d["manipindex"].VInt?)
    && ("bodyandlink" in d ==> d["bodyandlink"].VStr?)
  }

  /**
   * TSR.from_dict: look up T0_w, Tw_e and Bw, fall back to -1 and "NULL" for the two optional
   * keys, and run the constructor again (so an over-wide Bw is refused).
   */
  function TsrFromDict(d: Record): (r: Result<TsrState>)
    ensures r.Ok? <==> TsrDictShaped(d) && BoxWithinTwoPi(d["Bw"].box)
    ensures "T0_w" !in d ==> r == Err(MissingKey("T0_w"))
    ensures TsrDictShaped(d) && !BoxWithinTwoPi(d["Bw"].box) ==> r == Err(BwRangeTooWide)
    ensures r.Ok? ==> r.value == TsrState(d["T0_w"].transform, d["Tw_e"].transform, d["Bw"].box,
      if "manipindex" in d then d["manipindex"].integer else -1,
      if "bodyandlink" in d then d["bodyandlink"].str else "NULL")
  {
    var T0_w :- GetTransform(d, "T0_w");
    var Tw_e :- GetTransform(d, "Tw_e");
    var Bw :- GetBox(d, "Bw");
    var manip :- GetIntOr(d, "manipindex", -1);
    var bodyAndLink :- GetStrOr(d, "bodyandlink", "NULL");
    Construct(TsrArgs(Some(T0_w), Some(Tw_e), Some(Bw), Some(manip), bodyAndLink))
  }

  /** from_dict(to_dict(t)) gives back every attribute of a constructed TSR. */
  lemma TsrDictRoundTrip(t: TsrState)
    requires WellFormed(t)
    ensures TsrFromDict(TsrToDict(t)) == Ok(t)
  {
  }

  /**
   * A TSR object. Only T0_w is ever reassigned after construction (a chain's to_transform
   * overwrites it), so the other attributes are constants of the object.
   */
  class Tsr {
    var T0_w: Transform
    const Tw_e: Transform
    const Bw: Box
    const manipIndex: int
    const bodyAndLink: string

    function State(): TsrState
      reads this
    {
      TsrState(T0_w, Tw_e, Bw, manipIndex, bodyAndLink)
    }

    /** The invariant the constructor establishes. */
    ghost predicate Valid() {
      BoxWithinTwoPi(Bw)
    }

    /** Stores an already validated state; `New` and `FromDict` are the checking entry points. */
    constructor (s: TsrState)
      requires WellFormed(s)
      ensures Valid() && State() == s
    {
      T0_w, Tw_e, Bw := s.T0_w, s.Tw_e, s.Bw;
      manipIndex, bodyAndLink := s.manipIndex, s.bodyAndLink;
    }

    /** TSR(...): a fresh TSR, or the constructor's ValueError. */
    static method New(a: TsrArgs) returns (r: Result<Tsr>)
      ensures r.Err? <==> Construct(a).Err?
      ensures r.Err? ==> r.error == BwRangeTooWide
      ensures r.Ok? ==> fresh(r.value) && r.value.Valid() && r.value.State() == Construct(a).value
    {
      var s := Construct(a);
      if s.Err? {
        return Err(s.error);
      }
      var t := new Tsr(s.value);
      r := Ok(t);
    }

    /** TSR.from_dict: a fresh TSR built from a dictionary. */
    static method FromDict(d: Record) returns (r: Result<Tsr>)
      ensures r.Err? <==> TsrFromDict(d).Err?
      ensures r.Err? ==> r.error == TsrFromDict(d).error
      ensures r.Ok? ==> fresh(r.value) && r.value.Valid() && r.value.State() == TsrFromDict(d).value
    {
      var s := TsrFromDict(d);
      if s.Err? {
        return Err(s.error);
      }
      var t := new Tsr(s.value);
      r := Ok(t);
    }

    /**
     * TSR.is_valid as the source computes it: the comparisons fill a fresh check vector, then
     * the NaN mask is assigned into it in place.
     */
    method IsValid(x: seq<Entry>, ignoreNan: bool) returns (r: Result<seq<bool>>)
      ensures r == Check(State(), x, ignoreNan)
    {
      var n := if |x| < 6 then |x| else 6;
      var bw := Bw;
      var check := new bool[n](i requires 0 <= i < n => DofValid(bw, i, x[i]));
      if ignoreNan {
        if |x| != n {
          return Err(MaskLengthMismatch);
        }
        forall i | 0 <= i < n && x[i].NaN? {
          check[i] := true;
        }
      }
      ghost var expected := Check(State(), x, ignoreNan).value;
      assert forall i :: 0 <= i < n ==> check[..][i] == expected[i];
      assert check[..] == expected;
      r := Ok(check[..]);
    }
  }
}
