/**
 * A TSR chain (tsr.py, class TSRChain): an ordered list of TSR objects and the flags that
 * tell a planner where to apply it. Its to_transform threads each step's transform into the
 * next TSR's T0_w, overwriting that field in place.
 */
module TsrChains {
  import opened Outcomes
  import opened Geometry
  import opened Records
  import opened Tsrs

  /** The attributes of a chain, with each TSR object replaced by its state. */
  datatype ChainRecord = ChainRecord(sampleStart: bool, sampleGoal: bool, constrain: bool,
                                     mimicBodyName: string, mimicBodyJoints: seq<int>, tsrs: seq<TsrState>)

  /** The states of a list of TSR objects, in order. */
  function States(ts: seq<Tsr>): (s: seq<TsrState>)
    reads set t | t in ts
    ensures |s| == |ts| && forall k :: 0 <= k < |ts| ==> s[k] == ts[k].State()
  {
    seq(|ts|, k requires 0 <= k < |ts| reads ts => ts[k].State())
  }

  /** The attributes other than T0_w of each object agree with its recorded state. */
  predicate Constants(ts: seq<Tsr>, s: seq<TsrState>) {
    |ts| == |s| && forall k :: 0 <= k < |ts| ==>
      s[k].Tw_e == ts[k].Tw_e && s[k].Bw == ts[k].Bw && s[k].manipIndex == ts[k].manipIndex &&
      s[k].bodyAndLink == ts[k].bodyAndLink
  }

  /** Every TSR object in the list keeps its construction invariant. */
  ghost predicate AllValid(ts: seq<Tsr>) {
    forall k :: 0 <= k < |ts| ==> ts[k].Valid()
  }

  /** A concatenation of TSR lists is valid iff both parts are. */
  lemma AllValidConcat(a: seq<Tsr>, b: seq<Tsr>)
    ensures AllValid(a + b) <==> AllValid(a) && AllValid(b)
  {
    if AllValid(a) && AllValid(b) {
      forall k | 0 <= k < |a + b| ensures (a + b)[k].Valid() {
        if k >= |a| {
          assert (a + b)[k] == b[k - |a|];
        }
      }
    }
    if AllValid(a + b) {
      forall k | 0 <= k < |a| ensures a[k].Valid() {
        assert (a + b)[k] == a[k];
      }
      forall k | 0 <= k < |b| ensures b[k].Valid() {
        assert (a + b)[|a| + k] == b[k];
      }
    }
  }

  /** No TSR object occurs twice in the list. */
  predicate Distinct(ts: seq<Tsr>) {
    forall i, j :: 0 <= i < j < |ts| ==> ts[i] != ts[j]
  }

  /** The check vectors of is_valid for every element, NaN not ignored. */
  function ChainChecks(s: seq<TsrState>, xs: seq<seq<Entry>>): (c: seq<seq<bool>>)
    requires |s| == |xs|
  {
    seq(|xs|, k requires 0 <= k < |xs| => Check(s[k], xs[k], false).value)
  }

  /** Every element's check vector is all True. */
  predicate AllChecksPass(s: seq<TsrState>, xs: seq<seq<Entry>>)
    requires |s| == |xs|
  {
    forall k :: 0 <= k < |s| ==> AllTrue(Check(s[k], xs[k], false).value)
  }

  /** Everything to_transform checks before its first write: lengths agree, every check passes, the chain is not empty. */
  predicate PreChecked(s: seq<TsrState>, xs: seq<seq<Entry>>) {
    |s| == |xs| && AllChecksPass(s, xs) && |s| > 0
  }

  /**
   * R_{k-1}, the result of the first k steps of the chain's left fold: step j computes TSR j's
   * transform with T0_w set to the result of the steps before it (`frame` for step 0). The
   * first failing step decides the result.
   */
  function FoldTo(s: seq<TsrState>, xs: seq<seq<Entry>>, k: nat, frame: Transform): Result<Transform>
    requires k <= |s| == |xs|
  {
    if k == 0 then Ok(frame)
    else match FoldTo(s, xs, k - 1, frame)
      case Err(e) => Err(e)
      case Ok(prev) => ToTransform(s[k - 1].(T0_w := prev), xs[k - 1])
  }

  /** The whole fold: the result of TSRChain.to_transform once its checks have passed. */
  function Fold(s: seq<TsrState>, xs: seq<seq<Entry>>, frame: Transform): Result<Transform>
    requires |s| == |xs|
  {
    FoldTo(s, xs, |s|, frame)
  }

  /**
   * The T0_w that object ts[k] holds after the first n steps: each step j that is reached
   * writes FoldTo(j), the result so far, into ts[j]; an object keeps the last write to it,
   * or its frame in s when no write reached it.
   */
  function HeldFrame(ts: seq<Tsr>, s: seq<TsrState>, xs: seq<seq<Entry>>, start: Transform, n: nat, k: nat): Transform
    requires n <= |ts| == |s| == |xs| && k < |ts|
  {
    if n == 0 then s[k].T0_w
    else if ts[n - 1] == ts[k] && FoldTo(s, xs, n - 1, start).Ok? then FoldTo(s, xs, n - 1, start).value
    else HeldFrame(ts, s, xs, start, n - 1, k)
  }

  /**
   * `written` lists the frames a walk from `start` stores, one per step reached: step j stores
   * the result of the steps before it, and the walk stops at the end or after the first failure.
   */
  predicate WritesOf(s: seq<TsrState>, xs: seq<seq<Entry>>, start: Transform, written: seq<Transform>) {
    && |written| <= |s| == |xs|
    && (forall j {:trigger written[j]} :: 0 <= j < |written| ==> FoldTo(s, xs, j, start) == Ok(written[j]))
    && (|written| == |s| || (|written| > 0 && FoldTo(s, xs, |written|, start).Err?))
  }

  /** The index of the last of ts[0..n) that is the object ts[k], or -1 when there is none. */
  function LastWrite(ts: seq<Tsr>, n: nat, k: nat): (j: int)
    requires n <= |ts| && k < |ts|
    ensures -1 <= j < n && (j >= 0 ==> ts[j] == ts[k])
  {
    if n == 0 then -1
    else if ts[n - 1] == ts[k] then n - 1
    else LastWrite(ts, n - 1, k)
  }

  /** LastWrite finds the last occurrence: no later step of the first n is the object ts[k], and -1 means none is. */
  lemma {:induction false} LastWriteIsLast(ts: seq<Tsr>, n: nat, k: nat)
    requires n <= |ts| && k < |ts|
    ensures forall i :: LastWrite(ts, n, k) < i < n ==> ts[i] != ts[k]
    ensures LastWrite(ts, n, k) == -1 <==> forall i :: 0 <= i < n ==> ts[i] != ts[k]
    decreases n
  {
    if n > 0 && ts[n - 1] != ts[k] {
      LastWriteIsLast(ts, n - 1, k);
    }
  }

  /** The frame ts[k] holds after `written[j]` has been stored into ts[j] for each j < n in turn. */
  function FrameAfter(ts: seq<Tsr>, s: seq<TsrState>, written: seq<Transform>, n: nat, k: nat): Transform
    requires n <= |ts| == |s| && n <= |written| && k < |ts|
  {
    var j := LastWrite(ts, n, k);
    if j < 0 then s[k].T0_w else written[j]
  }

  /**
   * When the first n steps are all reached, writing the frames `written` in order, the frame
   * an object holds is the one written by the last step that reached it.
   */
  lemma {:induction false} HeldFrameOfWrites(ts: seq<Tsr>, s: seq<TsrState>, xs: seq<seq<Entry>>, start: Transform,
                                             written: seq<Transform>, n: nat, k: nat)
    requires n <= |ts| == |s| == |xs| && n <= |written| && k < |ts|
    requires forall j {:trigger written[j]} :: 0 <= j < n ==> FoldTo(s, xs, j, start) == Ok(written[j])
    ensures HeldFrame(ts, s, xs, start, n, k) == FrameAfter(ts, s, written, n, k)
    decreases n
  {
    if n > 0 && ts[n - 1] != ts[k] {
      HeldFrameOfWrites(ts, s, xs, start, written, n - 1, k);
    }
  }

  /** When step m - 1 is the first to fail, each object keeps the frame the steps before it stored. */
  lemma HeldFrameAtError(ts: seq<Tsr>, s: seq<TsrState>, xs: seq<seq<Entry>>, start: Transform,
                         written: seq<Transform>, m: nat, k: nat)
    requires 0 < m <= |ts| == |s| == |xs| && m <= |written| && k < |ts|
    requires forall j {:trigger written[j]} :: 0 <= j < m ==> FoldTo(s, xs, j, start) == Ok(written[j])
    requires FoldTo(s, xs, m, start).Err?
    ensures HeldFrame(ts, s, xs, start, |ts|, k) == FrameAfter(ts, s, written, m, k)
  {
    HeldFrameAfterError(ts, s, xs, start, m, |ts|, k);
    HeldFrameOfWrites(ts, s, xs, start, written, m, k);
  }

  /** The frames written so far, extended by the result of one more successful step. */
  lemma WrittenExtend(s: seq<TsrState>, xs: seq<seq<Entry>>, start: Transform, written: seq<Transform>, frame: Transform)
    requires |written| < |s| == |xs|
    requires forall j {:trigger written[j]} :: 0 <= j < |written| ==> FoldTo(s, xs, j, start) == Ok(written[j])
    requires FoldTo(s, xs, |written|, start) == Ok(frame)
    ensures forall j {:trigger (written + [frame])[j]} :: 0 <= j < |written| + 1 ==>
      FoldTo(s, xs, j, start) == Ok((written + [frame])[j])
  {
    forall j | 0 <= j < |written| + 1 ensures FoldTo(s, xs, j, start) == Ok((written + [frame])[j]) {
      if j < |written| {
        assert (written + [frame])[j] == written[j];
      }
    }
  }

  /** Storing one more frame changes what the stored-to object holds, and nothing else. */
  lemma FrameAfterStore(ts: seq<Tsr>, s: seq<TsrState>, written: seq<Transform>, frame: Transform)
    requires |written| < |ts| == |s|
    ensures forall k :: 0 <= k < |ts| ==>
      FrameAfter(ts, s, written + [frame], |written| + 1, k) ==
        (if ts[k] == ts[|written|] then frame else FrameAfter(ts, s, written, |written|, k))
  {
    forall k | 0 <= k < |ts|
      ensures FrameAfter(ts, s, written + [frame], |written| + 1, k) ==
        if ts[k] == ts[|written|] then frame else FrameAfter(ts, s, written, |written|, k)
    {
      var j := LastWrite(ts, |written|, k);
      if j >= 0 {
        assert (written + [frame])[j] == written[j];
      }
    }
  }

  /** A failed step ends the fold: every longer prefix fails with the same error. */
  lemma {:induction false} FoldErrorPersists(s: seq<TsrState>, xs: seq<seq<Entry>>, frame: Transform, j: nat, n: nat)
    requires j <= n <= |s| == |xs| && FoldTo(s, xs, j, frame).Err?
    ensures FoldTo(s, xs, n, frame) == FoldTo(s, xs, j, frame)
    decreases n
  {
    if n > j {
      FoldErrorPersists(s, xs, frame, j, n - 1);
    }
  }

  /** Once a step has failed, no later step is reached, so no object's frame changes. */
  lemma {:induction false} HeldFrameAfterError(ts: seq<Tsr>, s: seq<TsrState>, xs: seq<seq<Entry>>, start: Transform, j: nat, n: nat, k: nat)
    requires 0 < j <= n <= |ts| == |s| == |xs| && k < |ts| && FoldTo(s, xs, j, start).Err?
    ensures HeldFrame(ts, s, xs, start, n, k) == HeldFrame(ts, s, xs, start, j, k)
    decreases n
  {
    if n > j {
      FoldErrorPersists(s, xs, start, j, n - 1);
      HeldFrameAfterError(ts, s, xs, start, j, n - 1, k);
    }
  }

  /** One more step of the fold from a reached frame. */
  lemma FoldNext(s: seq<TsrState>, xs: seq<seq<Entry>>, start: Transform, idx: nat, frame: Transform)
    requires idx < |s| == |xs| && FoldTo(s, xs, idx, start) == Ok(frame)
    ensures FoldTo(s, xs, idx + 1, start) == ToTransform(s[idx].(T0_w := frame), xs[idx])
  {
  }

  /**
   * Each successful step composes on the right: R_k is R_{k-1} * Tw(b_k) * Tw_e_k, so the
   * chain's transform is T0_w of TSR 0 followed by every TSR's Tw(b) * Tw_e in order.
   */
  lemma FoldStepProduct(s: seq<TsrState>, xs: seq<seq<Entry>>, frame: Transform, k: nat)
    requires k < |s| == |xs| && FoldTo(s, xs, k + 1, frame).Ok?
    ensures FoldTo(s, xs, k, frame).Ok? && |xs[k]| == 6
    ensures FoldTo(s, xs, k + 1, frame).value ==
      Compose(Compose(FoldTo(s, xs, k, frame).value, ChartToTransform(ChartOf(xs[k]))), s[k].Tw_e)
  {
  }

  /** Without aliasing, TSR k holds the result of the first k steps once step k is reached, and its own frame before. */
  lemma {:induction false} HeldFrameDistinct(ts: seq<Tsr>, s: seq<TsrState>, xs: seq<seq<Entry>>, start: Transform, n: nat, k: nat)
    requires Distinct(ts) && n <= |ts| == |s| == |xs| && k < |ts|
    ensures HeldFrame(ts, s, xs, start, n, k) ==
      if k < n && FoldTo(s, xs, k, start).Ok? then FoldTo(s, xs, k, start).value else s[k].T0_w
    decreases n
  {
    if n > 0 {
      HeldFrameDistinct(ts, s, xs, start, n - 1, k);
      assert ts[n - 1] == ts[k] <==> n - 1 == k;
    }
  }

  /** When every element is a valid 6-long pose, every prefix of the fold succeeds, from any frame. */
  lemma {:induction false} FoldSucceeds(s: seq<TsrState>, xs: seq<seq<Entry>>, frame: Transform, n: nat)
    requires n <= |s| == |xs|
    requires forall k :: 0 <= k < |s| ==> |xs[k]| == 6 && forall i :: 0 <= i < 6 ==> DofValid(s[k].Bw, i, xs[k][i])
    ensures FoldTo(s, xs, n, frame).Ok?
    decreases n
  {
    if n > 0 {
      FoldSucceeds(s, xs, frame, n - 1);
    }
  }

  /**
   * When every check passes but element m is the first pose whose length is not 6, steps 0..m
   * are all reached, so TSRs 0..m get their T0_w written, and then the chain raises TSR m's
   * length error.
   */
  lemma {:induction false} FoldStopsAtWrongLength(s: seq<TsrState>, xs: seq<seq<Entry>>, frame: Transform, m: nat)
    requires |s| == |xs| && m < |s|
    requires AllChecksPass(s, xs)
    requires |xs[m]| != 6 && forall k :: 0 <= k < m ==> |xs[k]| == 6
    ensures forall k :: 0 <= k <= m ==> FoldTo(s, xs, k, frame).Ok?
    ensures Fold(s, xs, frame) == Err(WrongLength)
  {
    forall k | 0 <= k < m ensures forall i :: 0 <= i < 6 ==> DofValid(s[k].Bw, i, xs[k][i]) {
      assert AllTrue(Check(s[k], xs[k], false).value);
    }
    forall k | 0 <= k <= m ensures FoldTo(s, xs, k, frame).Ok? {
      FoldSucceeds(s[..m], xs[..m], frame, k);
      PrefixFold(s, xs, frame, m, k);
    }
    FoldErrorPersists(s, xs, frame, m + 1, |s|);
  }

  /** The fold of a prefix agrees with the fold of the whole list on the steps they share. */
  lemma {:induction false} PrefixFold(s: seq<TsrState>, xs: seq<seq<Entry>>, frame: Transform, m: nat, k: nat)
    requires k <= m <= |s| == |xs|
    ensures FoldTo(s[..m], xs[..m], k, frame) == FoldTo(s, xs, k, frame)
    decreases k
  {
    if k > 0 {
      PrefixFold(s, xs, frame, m, k - 1);
      assert s[..m][k - 1] == s[k - 1] && xs[..m][k - 1] == xs[k - 1];
    }
  }

  /** A chain of two: the result is TSR 2's transform with T0_w set to TSR 1's transform. */
  lemma TwoTsrChain(a: TsrState, b: TsrState, x1: seq<Entry>, x2: seq<Entry>)
    requires ToTransform(a, x1).Ok?
    ensures Fold([a, b], [x1, x2], a.T0_w) == ToTransform(b.(T0_w := ToTransform(a, x1).value), x2)
  {
    assert a.(T0_w := a.T0_w) == a;
    assert FoldTo([a, b], [x1, x2], 1, a.T0_w) == ToTransform(a, x1);
  }

  /** The default of sample_xyzrpy: one all-NaN pose per TSR. */
  function PosesOrDefault(xs: Option<seq<seq<Entry>>>, n: nat): (p: seq<seq<Entry>>)
    ensures xs.None? ==> |p| == n && forall k :: 0 <= k < n ==> p[k] == NANBW
    ensures xs.Some? ==> p == xs.value
  {
    if xs.Some? then xs.value else seq(n, _ => NANBW)
  }

  /** TSRChain.to_dict. */
  function ChainToDict(c: ChainRecord): (d: Record)
    ensures d.Keys == {"sample_goal", "sample_start", "constrain", "mimicbodyname", "mimicbodyjoints", "tsrs"}
  {
    map["sample_goal" := VBool(c.sampleGoal), "sample_start" := VBool(c.sampleStart),
        "constrain" := VBool(c.constrain), "mimicbodyname" := VStr(c.mimicBodyName),
        "mimicbodyjoints" := VInts(c.mimicBodyJoints),
        "tsrs" := VRecords(seq(|c.tsrs|, k requires 0 <= k < |c.tsrs| => TsrToDict(c.tsrs[k])))]
  }

  /** `[TSR.from_dict(tsr) for tsr in ...]`: decoded in order, the first failure raises. */
  function TsrsFromDicts(ds: seq<Record>): (r: Result<seq<TsrState>>)
    ensures r.Ok? <==> forall k :: 0 <= k < |ds| ==> TsrFromDict(ds[k]).Ok?
    ensures r.Ok? ==> |r.value| == |ds| && forall k :: 0 <= k < |ds| ==> r.value[k] == TsrFromDict(ds[k]).value
    ensures r.Ok? ==> forall k :: 0 <= k < |ds| ==> WellFormed(r.value[k])
    decreases |ds|
  {
    if ds == [] then Ok([])
    else
      var t :- TsrFromDict(ds[0]);
      var rest :- TsrsFromDicts(ds[1..]);
      Ok([t] + rest)
  }

  /**
   * TSRChain.from_dict: every key is required, read in the order sample_start, sample_goal,
   * constrain, tsrs, mimicbodyname, mimicbodyjoints.
   */
  function ChainFromDict(d: Record): (r: Result<ChainRecord>)
    ensures "sample_start" !in d ==> r == Err(MissingKey("sample_start"))
    ensures r.Ok? <==>
      && "sample_start" in d && d["sample_start"].VBool?
      && "sample_goal" in d && d["sample_goal"].VBool?
      && "constrain" in d && d["constrain"].VBool?
      && "tsrs" in d && d["tsrs"].VRecords?
      && (forall k :: 0 <= k < |d["tsrs"].records| ==> TsrFromDict(d["tsrs"].records[k]).Ok?)
      && "mimicbodyname" in d && d["mimicbodyname"].VStr?
      && "mimicbodyjoints" in d && d["mimicbodyjoints"].VInts?
    ensures r.Ok? ==> r.value.sampleStart == d["sample_start"].flag && r.value.sampleGoal == d["sample_goal"].flag
    ensures r.Ok? ==> r.value.constrain == d["constrain"].flag && r.value.mimicBodyName == d["mimicbodyname"].str
    ensures r.Ok? ==> r.value.mimicBodyJoints == d["mimicbodyjoints"].ints
    ensures r.Ok? ==> |r.value.tsrs| == |d["tsrs"].records| && forall k :: 0 <= k < |r.value.tsrs| ==>
      WellFormed(r.value.tsrs[k]) && r.value.tsrs[k] == TsrFromDict(d["tsrs"].records[k]).value
  {
    var sampleStart :- GetBool(d, "sample_start");
    var sampleGoal :- GetBool(d, "sample_goal");
    var constrain :- GetBool(d, "constrain");
    var records :- GetRecords(d, "tsrs");
    var tsrs :- TsrsFromDicts(records);
    var mimicBodyName :- GetStr(d, "mimicbodyname");
    var mimicBodyJoints :- GetInts(d, "mimicbodyjoints");
    Ok(ChainRecord(sampleStart, sampleGoal, constrain, mimicBodyName, mimicBodyJoints, tsrs))
  }

  /** from_dict(to_dict(c)) gives back the flags, the mimic body and the TSRs in order. */
  lemma ChainDictRoundTrip(c: ChainRecord)
    requires forall k :: 0 <= k < |c.tsrs| ==> WellFormed(c.tsrs[k])
    ensures ChainFromDict(ChainToDict(c)) == Ok(c)
  {
    var ds := ChainToDict(c)["tsrs"].records;
    forall k | 0 <= k < |c.tsrs| ensures TsrFromDict(ds[k]) == Ok(c.tsrs[k]) {
      TsrDictRoundTrip(c.tsrs[k]);
    }
    assert TsrsFromDicts(ds).value == c.tsrs;
  }

  class TsrChain {
    var sampleStart: bool
    var sampleGoal: bool
    var constrain: bool
    var mimicBodyName: string
    var mimicBodyJoints: seq<int>
    var TSRs: seq<Tsr>

    function Record(): ChainRecord
      reads this, set t | t in TSRs
    {
      ChainRecord(sampleStart, sampleGoal, constrain, mimicBodyName, mimicBodyJoints, States(TSRs))
    }

    /** Every member TSR keeps its construction invariant. */
    ghost predicate Valid()
      reads this
    {
      AllValid(TSRs)
    }

    /** TSRChain(...): the single TSR, if given, then the list, in order. */
    constructor (sampleStart: bool := false, sampleGoal: bool := false, constrain: bool := false,
                 tsr: Option<Tsr> := None, tsrs: Option<seq<Tsr>> := None,
                 mimicBodyName: string := "NULL", mimicBodyJoints: Option<seq<int>> := None)
      ensures this.sampleStart == sampleStart && this.sampleGoal == sampleGoal && this.constrain == constrain
      ensures this.mimicBodyName == mimicBodyName
      ensures this.mimicBodyJoints == if mimicBodyJoints.Some? then mimicBodyJoints.value else []
      ensures TSRs == (if tsr.Some? then [tsr.value] else []) + (if tsrs.Some? then tsrs.value else [])
      ensures Valid() <==> (tsr.Some? ==> tsr.value.Valid()) && (tsrs.Some? ==> AllValid(tsrs.value))
    {
      this.sampleStart, this.sampleGoal, this.constrain := sampleStart, sampleGoal, constrain;
      this.mimicBodyName := mimicBodyName;
      this.mimicBodyJoints := if mimicBodyJoints.Some? then mimicBodyJoints.value else [];
      TSRs := [];
      new;
      if tsr.Some? {
        Append(tsr.value);
      }
      if tsrs.Some? {
        AppendAll(tsrs.value);
      }
    }

    /** TSRChain.append: one TSR at the end; nothing else changes. The chain stays valid iff the new TSR is. */
    method Append(tsr: Tsr)
      modifies `TSRs
      ensures TSRs == old(TSRs) + [tsr]
      ensures Valid() <==> old(Valid()) && tsr.Valid()
    {
      AllValidConcat(TSRs, [tsr]);
      assert AllValid([tsr]) <==> tsr.Valid() by {
        assert [tsr][0] == tsr;
      }
      TSRs := TSRs + [tsr];
    }

    /** The loop `for tsr in TSRs: self.append(tsr)` of TSRChain(...): the list is appended in order. */
    method AppendAll(list: seq<Tsr>)
      modifies `TSRs
      ensures TSRs == old(TSRs) + list
      ensures Valid() <==> old(Valid()) && AllValid(list)
    {
      ghost var prefix := TSRs;
      for i := 0 to |list|
        invariant TSRs == prefix + list[..i]
      {
        Append(list[i]);
        assert list[..i + 1] == list[..i] + [list[i]];
      }
      assert list[..|list|] == list;
      AllValidConcat(prefix, list);
    }

    /** TSRChain.is_valid: the lengths must agree, then each TSR checks its own pose, in order. */
    method IsValid(xs: seq<seq<Entry>>, ignoreNan: bool) returns (r: Result<seq<seq<bool>>>)
      ensures |xs| != |TSRs| ==> r == Err(ChainLengthMismatch)
      ensures r.Ok? <==> |xs| == |TSRs| && (ignoreNan ==> forall k :: 0 <= k < |xs| ==> |xs[k]| <= 6)
      ensures r.Err? && |xs| == |TSRs| ==> r.error == MaskLengthMismatch
      ensures r.Ok? ==> |r.value| == |TSRs| && forall k :: 0 <= k < |TSRs| ==>
        r.value[k] == Check(TSRs[k].State(), xs[k], ignoreNan).value
    {
      if |xs| != |TSRs| {
        return Err(ChainLengthMismatch);
      }
      var check: seq<seq<bool>> := [];
      for idx := 0 to |TSRs|
        invariant |check| == idx
        invariant forall k :: 0 <= k < idx ==>
          Check(TSRs[k].State(), xs[k], ignoreNan).Ok? && check[k] == Check(TSRs[k].State(), xs[k], ignoreNan).value
      {
        var c := TSRs[idx].IsValid(xs[idx], ignoreNan);
        if c.Err? {
          return Err(c.error);
        }
        check := check + [c.value];
      }
      r := Ok(check);
    }

    /**
     * TSRChain.to_transform. It raises, writing nothing, when the lengths differ, a check fails
     * or the chain is empty. Otherwise it walks the chain, setting TSR k's T0_w to the result
     * so far (TSR 0 gets its own) before computing TSR k's transform: the result is the fold,
     * and each object keeps the last frame written to it.
     */
    method ToTransform(xs: seq<seq<Entry>>) returns (r: Result<Transform>)
      modifies set t | t in TSRs
      ensures |xs| != |TSRs| ==> r == Err(ChainLengthMismatch)
      ensures |xs| == |TSRs| && !AllChecksPass(old(States(TSRs)), xs) ==>
        r == Err(InvalidChainPose(ChainChecks(old(States(TSRs)), xs)))
      ensures |xs| == |TSRs| == 0 ==> r == Err(EmptyChain)
      ensures !PreChecked(old(States(TSRs)), xs) ==> forall k :: 0 <= k < |TSRs| ==> TSRs[k].T0_w == old(TSRs[k].T0_w)
      ensures PreChecked(old(States(TSRs)), xs) ==>
        && r == Fold(old(States(TSRs)), xs, old(TSRs[0].T0_w))
        && forall k :: 0 <= k < |TSRs| ==>
             TSRs[k].T0_w == HeldFrame(TSRs, old(States(TSRs)), xs, old(TSRs[0].T0_w), |TSRs|, k)
      ensures PreChecked(old(States(TSRs)), xs) && Distinct(TSRs) && r.Ok? ==>
        forall k :: 0 <= k < |TSRs| ==>
          && FoldTo(old(States(TSRs)), xs, k, old(TSRs[0].T0_w)).Ok?
          && TSRs[k].T0_w == FoldTo(old(States(TSRs)), xs, k, old(TSRs[0].T0_w)).value
    {
      ghost var s := States(TSRs);
      var check := IsValid(xs, false);
      if check.Err? {
        return Err(check.error);
      }
      var checks := check.value;
      assert checks == ChainChecks(s, xs);
      for idx := 0 to |TSRs|
        invariant forall k :: 0 <= k < idx ==> AllTrue(checks[k])
      {
        if !AllTrue(checks[idx]) {
          return Err(InvalidChainPose(checks));
        }
      }
      if |TSRs| == 0 {
        return Err(EmptyChain);
      }
      assert PreChecked(s, xs);
      ghost var start := TSRs[0].T0_w;
      ghost var written;
      r, written := Walk(xs, s, start);
      forall k | 0 <= k < |TSRs| ensures TSRs[k].T0_w == HeldFrame(TSRs, s, xs, start, |TSRs|, k) {
        if |written| == |TSRs| {
          HeldFrameOfWrites(TSRs, s, xs, start, written, |TSRs|, k);
        } else {
          HeldFrameAtError(TSRs, s, xs, start, written, |written|, k);
        }
      }
      if Distinct(TSRs) && r.Ok? {
        forall k | 0 <= k < |TSRs|
          ensures FoldTo(s, xs, k, start).Ok? && TSRs[k].T0_w == FoldTo(s, xs, k, start).value
        {
          if FoldTo(s, xs, k, start).Err? {
            FoldErrorPersists(s, xs, start, k, |s|);
          }
          HeldFrameDistinct(TSRs, s, xs, start, |TSRs|, k);
        }
      }
    }

    /**
     * The walk of to_transform once every check has passed. The ghost `written` lists the
     * frames stored, one per step reached.
     */
    method Walk(xs: seq<seq<Entry>>, ghost s: seq<TsrState>, ghost start: Transform)
      returns (r: Result<Transform>, ghost written: seq<Transform>)
      requires |TSRs| == |xs| > 0 && s == States(TSRs) && start == TSRs[0].T0_w
      modifies set t | t in TSRs
      ensures r == Fold(s, xs, start)
      ensures WritesOf(s, xs, start, written)
      ensures forall k :: 0 <= k < |TSRs| ==> TSRs[k].T0_w == FrameAfter(TSRs, s, written, |written|, k)
    {
      var ts := TSRs;
      written := [];
      var T0_w := ts[0].T0_w;
      var idx := 0;
      while idx < |ts|
        invariant 0 <= idx <= |ts| && |written| == idx
        invariant forall j {:trigger written[j]} :: 0 <= j < idx ==> FoldTo(s, xs, j, start) == Ok(written[j])
        invariant forall k :: 0 <= k < |ts| ==>
          ts[k].T0_w == FrameAfter(ts, s, written, idx, k)
        invariant FoldTo(s, xs, idx, start) == Ok(T0_w)
        invariant Constants(ts, s)
      {
        var step;
        step, written := Step(ts, idx, T0_w, xs[idx], s, xs, start, written);
        if step.Err? {
          return Err(step.error), written;
        }
        T0_w := step.value;
        idx := idx + 1;
      }
      r := Ok(T0_w);
    }

    /**
     * One step of the walk: `tsr_current.T0_w = T0_w; T0_w = tsr_current.to_transform(xyzrpy[idx])`.
     * The ghost `written` lists the frames stored by the earlier steps; the step stores `frame`,
     * the result of those steps, and its own result is the fold one step further, which is the
     * result of the whole fold when it fails.
     */
    static method Step(ts: seq<Tsr>, idx: nat, frame: Transform, x: seq<Entry>, ghost s: seq<TsrState>,
                       ghost xs: seq<seq<Entry>>, ghost start: Transform, ghost written: seq<Transform>)
      returns (r: Result<Transform>, ghost written': seq<Transform>)
      requires idx < |ts| == |s| == |xs| && |written| == idx && x == xs[idx]
      requires Constants(ts, s) && FoldTo(s, xs, idx, start) == Ok(frame)
      requires forall j {:trigger written[j]} :: 0 <= j < idx ==> FoldTo(s, xs, j, start) == Ok(written[j])
      requires forall k :: 0 <= k < |ts| ==> ts[k].T0_w == FrameAfter(ts, s, written, idx, k)
      modifies ts[idx]
      ensures written' == written + [frame]
      ensures forall j {:trigger written'[j]} :: 0 <= j < idx + 1 ==> FoldTo(s, xs, j, start) == Ok(written'[j])
      ensures forall k :: 0 <= k < |ts| ==> ts[k].T0_w == FrameAfter(ts, s, written', idx + 1, k)
      ensures r == FoldTo(s, xs, idx + 1, start)
      ensures r.Err? ==> r == Fold(s, xs, start)
    {
      var tsr := ts[idx];
      tsr.T0_w := frame;
      assert tsr.State() == s[idx].(T0_w := frame);
      r := Tsrs.ToTransform(tsr.State(), x);
      FoldNext(s, xs, start, idx, frame);
      if r.Err? {
        FoldErrorPersists(s, xs, start, idx + 1, |s|);
      }
      WrittenExtend(s, xs, start, written, frame);
      written' := written + [frame];
      FrameAfterStore(ts, s, written, frame);
    }

    /**
     * TSRChain.sample_xyzrpy with draws[k] the uniform samples for TSR k: each TSR samples
     * its own pose (all NaN by default), in order; a pose list shorter than the chain raises.
     */
    method SampleXyzrpy(xs: Option<seq<seq<Entry>>>, draws: seq<seq<real>>) returns (r: Result<seq<seq<Entry>>>)
      requires |draws| == |TSRs| && forall k :: 0 <= k < |draws| ==> |draws[k]| == 6
      ensures var poses := PosesOrDefault(xs, |TSRs|);
        r.Ok? <==> |poses| >= |TSRs| && forall k :: 0 <= k < |TSRs| ==> Tsrs.SampleXyzrpy(TSRs[k].State(), poses[k], draws[k]).Ok?
      ensures var poses := PosesOrDefault(xs, |TSRs|);
        r.Ok? && |poses| >= |TSRs| ==> |r.value| == |TSRs| && forall k :: 0 <= k < |TSRs| ==>
          r.value[k] == Tsrs.SampleXyzrpy(TSRs[k].State(), poses[k], draws[k]).value
      ensures var poses := PosesOrDefault(xs, |TSRs|);
        r.Err? ==> exists m :: FirstSampleFailure(TSRs, poses, draws, m, r.error)
    {
      var poses := PosesOrDefault(xs, |TSRs|);
      var sample: seq<seq<Entry>> := [];
      for idx := 0 to |TSRs|
        invariant |sample| == idx && idx <= |poses|
        invariant forall k :: 0 <= k < idx ==>
          Tsrs.SampleXyzrpy(TSRs[k].State(), poses[k], draws[k]).Ok? &&
          sample[k] == Tsrs.SampleXyzrpy(TSRs[k].State(), poses[k], draws[k]).value
      {
        if idx >= |poses| {
          assert FirstSampleFailure(TSRs, poses, draws, idx, MissingPose);
          return Err(MissingPose);
        }
        var one := Tsrs.SampleXyzrpy(TSRs[idx].State(), poses[idx], draws[idx]);
        if one.Err? {
          assert FirstSampleFailure(TSRs, poses, draws, idx, one.error);
          return Err(one.error);
        }
        sample := sample + [one.value];
      }
      r := Ok(sample);
    }

    /**
     * Step m of sample_xyzrpy's loop is the first to raise, with error e: every earlier TSR
     * sampled its pose, and TSR m had no pose or raised e itself.
     */
    static ghost predicate FirstSampleFailure(ts: seq<Tsr>, poses: seq<seq<Entry>>, draws: seq<seq<real>>, m: int, e: Error)
      requires |draws| == |ts| && forall k :: 0 <= k < |draws| ==> |draws[k]| == 6
      reads set t | t in ts
    {
      && 0 <= m < |ts|
      && (forall k :: 0 <= k < m ==> k < |poses| && Tsrs.SampleXyzrpy(ts[k].State(), poses[k], draws[k]).Ok?)
      && if m >= |poses| then e == MissingPose
         else Tsrs.SampleXyzrpy(ts[m].State(), poses[m], draws[m]) == Err(e)
    }

    /** `[TSR(...) for ...]`: one fresh, distinct TSR object per state. */
    static method NewTsrs(states: seq<TsrState>) returns (objs: seq<Tsr>)
      requires forall k :: 0 <= k < |states| ==> WellFormed(states[k])
      ensures Distinct(objs) && States(objs) == states
      ensures forall k :: 0 <= k < |objs| ==> fresh(objs[k]) && objs[k].Valid()
    {
      objs := [];
      for i := 0 to |states|
        invariant |objs| == i && Distinct(objs)
        invariant forall k :: 0 <= k < i ==> fresh(objs[k]) && objs[k].Valid() && objs[k].State() == states[k]
      {
        var o := new Tsr(states[i]);
        objs := objs + [o];
      }
      assert States(objs) == states;
    }

    /** TSRChain.from_dict: a fresh chain of fresh TSRs. */
    static method FromDict(d: Record) returns (r: Result<TsrChain>)
      ensures r.Err? <==> ChainFromDict(d).Err?
      ensures r.Err? ==> r.error == ChainFromDict(d).error
      ensures r.Ok? ==> fresh(r.value) && r.value.Valid() && r.value.Record() == ChainFromDict(d).value
      ensures r.Ok? ==> Distinct(r.value.TSRs) && forall k :: 0 <= k < |r.value.TSRs| ==> fresh(r.value.TSRs[k])
    {
      var c := ChainFromDict(d);
      if c.Err? {
        return Err(c.error);
      }
      var rec := c.value;
      var objs := NewTsrs(rec.tsrs);
      var chain := new TsrChain(rec.sampleStart, rec.sampleGoal, rec.constrain, None, Some(objs),
                                rec.mimicBodyName, Some(rec.mimicBodyJoints));
      assert chain.TSRs == objs;
      r := Ok(chain);
    }
  }

  /** A valid chain object's members are well formed, so its record survives from_dict(to_dict(...)). */
  lemma ValidChainRoundTrip(c: TsrChain)
    requires c.Valid()
    ensures forall k :: 0 <= k < |c.Record().tsrs| ==> WellFormed(c.Record().tsrs[k])
    ensures ChainFromDict(ChainToDict(c.Record())) == Ok(c.Record())
  {
    forall k | 0 <= k < |c.Record().tsrs| ensures WellFormed(c.Record().tsrs[k]) {
      assert c.TSRs[k].Valid();
    }
    ChainDictRoundTrip(c.Record());
  }
}
