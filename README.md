# Task-Space Regions and TSR chains

A model of the Task-Space Region library of prpy (`src/prpy/tsr/tsr.py`).

A TSR constrains end-effector poses. It holds three things:

- a reference frame `T0_w`;
- an end-effector offset `Tw_e`;
- a 6x2 bound matrix `Bw` in the local chart `[x y z roll pitch yaw]`.

A pose is valid when each coordinate lies within its row of `Bw`, up to a tolerance `EPSILON = 0.001`. Angles are compared modulo whole turns; this is the corrected rotational check, not the source's own wrap (see Findings, tsr.py:113-117). A valid pose maps to the transform `T0_w * Tw(x y z yaw pitch roll) * Tw_e`.

A TSR chain is an ordered list of TSR objects plus a few flags for the planner (`sample_start`, `sample_goal`, `constrain`, a mimic body). Its `to_transform` walks the list in order. At each step it overwrites the next TSR's `T0_w` with the result so far, so the result is a left fold of the per-TSR transforms.

The project has five modules:

- `Outcomes` (`outcomes.dfy`): the optional arguments, one error constructor per raise site of the library plus the model-only `WrongType` (a dictionary value of another kind than the one the library writes), and a result type.
- `Geometry` (`geometry.dfy`):
  - transforms as a free term algebra (`Compose` and the chart-to-matrix map are constructors, so every transform equation proved here holds for any interpretation of them);
  - NaN-able entries, bound rows and the 6-row box;
  - Python's float remainder by `2*pi` and the angle wrap;
  - the translational and rotational bound checks.
- `Records` (`records.dfy`): the plain dictionaries `to_dict` produces, with the lookups `from_dict` performs.
- `Tsrs` (`tsr.dfy`):
  - the pure operations of a TSR on its state `TsrState`;
  - the heap class `Tsr`, whose `T0_w` is a `var` because a chain overwrites it. Every other attribute is a `const`, since nothing reassigns it after construction.
  - `Tsr.IsValid`, which builds the check vector in an array and then writes the NaN mask into it in place, as the source does.
- `TsrChains` (`tsrchain.dfy`):
  - the class `TsrChain`, whose methods loop and mutate as the source does;
  - the functions `FoldTo` and `HeldFrame`, which specify those methods: the result of the first k steps of the walk, and the frame each object holds afterwards (this also covers a chain that lists the same TSR object twice);
  - the dictionary conversions.

Random sampling takes its uniform draws as a parameter: `draws[i]` is the value `numpy.random.random_sample()` would return for entry `i`.

One behaviour is kept as the source has it, with line 74 corrected (see Findings): a chain pose whose length is not 6 but whose entries pass `is_valid`. Such a pose makes the chain's `to_transform` write the frames of TSRs 0..m and only then raise. With line 74 as written, the walk instead raises at step 0, after writing only TSR 0's own frame back to it: the length error when pose 0 is not 6 long, the truth-value error otherwise.

## Model

| member | source | states |
|---|---|---|
| Geometry.Mod2Pi | src/prpy/tsr/tsr.py:113-114 | Python's `% (2*pi)` on floats lies in [0, 2*pi) |
| Geometry.Wrap | src/prpy/tsr/tsr.py:113-114 | `(v + pi) % (2*pi) - pi` lies in [-pi, pi) |
| Geometry.Mod2PiTurn | src/prpy/tsr/tsr.py:113-114 | the remainder is the same for values a whole number of turns apart |
| Geometry.WrapTurn | src/prpy/tsr/tsr.py:112-114 | the wrap lands in [-pi, pi) and gives the same value for angles a whole number of turns apart |
| Geometry.WithinInterval | src/prpy/tsr/tsr.py:108-109 | definition: the translational test `x + EPSILON >= min and x - EPSILON <= max`, i.e. x lies in [min - EPSILON, max + EPSILON]; Tsrs.CheckTranslation states it as the verdict of is_valid for entries 0-2 |
| Geometry.RotationWithinAsWritten | src/prpy/tsr/tsr.py:113-117 | definition: the rotational test as written, wrapping the angle and each bound into [-pi, pi) separately and then applying the translational tolerance; RotationWithinAsWrittenTurn, RotationChecksAgreeAwayFromSeam and FullCircleRejectsZero characterise it |
| Geometry.RotationWithin | src/prpy/tsr/tsr.py:113-117 | definition of the corrected rotational test (Findings): the angle, measured from min - EPSILON modulo 2*pi, is at most the row's width plus 2*EPSILON; RotationWithinIff shows this means some whole-turn shift of the angle lies in [min - EPSILON, max + EPSILON], RotationWithinTurn and RotationWithinOfInterval give its periodicity and soundness |
| Geometry.RotationWithinIff | src/prpy/tsr/tsr.py:112-117 | the corrected rotational check holds iff some whole-turn shift of the angle lies in [min - EPSILON, max + EPSILON] (both directions) |
| Geometry.RotationWithinTurn | src/prpy/tsr/tsr.py:112-117 | the corrected rotational check gives the same verdict for angles a whole number of turns apart |
| Geometry.RotationWithinAsWrittenTurn | src/prpy/tsr/tsr.py:113-117 | the as-written rotational check is periodic in the angle as well |
| Geometry.RotationWithinOfInterval | src/prpy/tsr/tsr.py:115-117 | an angle inside [min, max] passes the corrected check |
| Geometry.RotationChecksAgreeAwayFromSeam | src/prpy/tsr/tsr.py:113-117 | when both bounds lie in [-pi + EPSILON, pi - EPSILON), with min <= max, the as-written and the corrected check agree on every angle |
| Geometry.FullCircleRejectsZero | src/prpy/tsr/tsr.py:113-117 | for the row [-pi, pi] the as-written check rejects the angle 0 and the corrected check accepts it |
| Records.GetTransform | src/prpy/tsr/tsr.py:203-205 | `x[key]`: a missing key raises, as in the source, and a matrix is returned as stored; a value of another kind raises WrongType, which the source does not check |
| Records.GetBox | src/prpy/tsr/tsr.py:205 | `x['Bw']`: a missing key raises, as in the source, and a bound matrix is returned as stored; any value of another kind raises WrongType, where the source raises at line 51 for a scalar, string or flat list but accepts a matrix of another shape as Bw |
| Records.GetBool | src/prpy/tsr/tsr.py:298-300 | `x[key]` for the chain flags: a missing key raises, as in the source, and a boolean is returned as stored; a value of another kind raises WrongType, which the source does not check |
| Records.GetStr | src/prpy/tsr/tsr.py:302 | `x['mimicbodyname']`: a missing key raises, as in the source, and a string is returned as stored; a value of another kind raises WrongType, which the source does not check |
| Records.GetInts | src/prpy/tsr/tsr.py:303 | `x['mimicbodyjoints']`: a missing key raises, as in the source, and an integer list is returned as stored; a value of another kind raises WrongType, which the source does not check |
| Records.GetRecords | src/prpy/tsr/tsr.py:301 | `x['tsrs']`: a missing key raises, as in the source, and a list of records is returned as stored; a value of another kind raises WrongType, where the source iterates whatever it finds |
| Records.GetIntOr | src/prpy/tsr/tsr.py:206 | `x.get('manipindex', -1)`: the default when absent, else the stored integer; a value of another kind raises WrongType, which the source does not check |
| Records.GetStrOr | src/prpy/tsr/tsr.py:207 | `x.get('bodyandlink', 'NULL')`: the default when absent, else the stored string; a value of another kind raises WrongType, which the source does not check |
| Tsrs.RowTooWide | src/prpy/tsr/tsr.py:51 | definition: a row of Bw is refused when max - min exceeds 2*pi + EPSILON; Tsrs.Construct states that any such row makes TSR(...) raise |
| Tsrs.BoxWithinTwoPi | src/prpy/tsr/tsr.py:49-52 | definition: no row of Bw is too wide, the invariant every constructed TSR keeps; Tsrs.Construct succeeds exactly when Bw is omitted or it holds of the given Bw, its result is WellFormed, and TsrChains.TsrChain.Append and AppendAll keep it for the chain |
| Tsrs.Construct | src/prpy/tsr/tsr.py:43-62 | it fails with the width error iff Bw is given and any of its six rows is wider than 2*pi + EPSILON; otherwise the result keeps the invariant, and every omitted argument gets its default (identity, identity, zeros, -1); bodyandlink is kept |
| Tsrs.ConstructDefaults | src/prpy/tsr/tsr.py:43-62 | TSR() with every argument omitted has identity frames, a zero Bw, manipindex -1 and bodyandlink 'NULL' |
| Tsrs.ConstructRollRange | src/prpy/tsr/tsr.py:49-52 | a roll row [-4, 4] is refused and the full circle [-pi, pi] is accepted |
| Tsrs.DofValid | src/prpy/tsr/tsr.py:106-117 | definition: entry i of a pose passes row i of Bw, a NaN never (it compares False), a number by WithinInterval for i < 3 and by RotationWithin for 3 <= i < 6; Tsrs.Check, CheckTranslation and CheckRotation state it as is_valid's vector |
| Tsrs.Check | src/prpy/tsr/tsr.py:97-125 | is_valid: the vector has min(len, 6) entries; entry i is True iff NaNs are ignored and x_i is NaN, or x_i passes its row's check (the corrected one for rotations); ignoring NaNs on a pose longer than 6 raises the mask error, and nothing else does |
| Tsrs.CheckTranslation | src/prpy/tsr/tsr.py:106-110 | for i < 3, entry i is True iff x_i is NaN with ignoreNAN, or a number in [min - EPSILON, max + EPSILON] |
| Tsrs.CheckRotation | src/prpy/tsr/tsr.py:112-123 | with the corrected rotational check (Findings, tsr.py:113-117): for 3 <= i < 6, the entry of a number is True iff some whole-turn shift of it is within the row up to EPSILON, and turning the angle does not change the entry |
| Tsrs.ToTransform | src/prpy/tsr/tsr.py:64-81 | a length other than 6 raises the length error; a 6-long pose succeeds iff every entry is valid; otherwise it raises the invalid-pose error, which carries no check vector; the result is T0_w * Tw(x, y, z, yaw, pitch, roll) * Tw_e |
| Tsrs.ToTransformAsWritten | src/prpy/tsr/tsr.py:72-75 | as written, every call raises: the length error for a length other than 6, else the truth-value error of `not` on an array |
| Tsrs.AsWrittenRejectsValidPose | src/prpy/tsr/tsr.py:74-75 | the all-zero pose of the default TSR is valid and the corrected transform accepts it, but the as-written code raises |
| Tsrs.ToTransformOkIgnoresFrame | src/prpy/tsr/tsr.py:64-81 | whether a pose is accepted does not depend on T0_w |
| Tsrs.ChartOf | src/prpy/tsr/tsr.py:77-78 | definition: the chart vector [x y z yaw pitch roll] of a pose [x y z roll pitch yaw], the reordering before xyzypr_to_trans; Tsrs.ToTransform's contract spells out the same reordering, and Tsrs.SampleIsValid states the transform built from it |
| Tsrs.Draw | src/prpy/tsr/tsr.py:174-175 | definition: `min + (max - min) * u`, the value drawn for a NaN entry; Tsrs.DrawWithin bounds it and Tsrs.SampleXyzrpy states that NaN entries get it |
| Tsrs.DrawWithin | src/prpy/tsr/tsr.py:174-175 | `min + (max - min) * u` with u in [0, 1) lies in [min, max], strictly below max when min < max |
| Tsrs.SampleXyzrpy | src/prpy/tsr/tsr.py:161-176 | it raises the mask error for a pose longer than 6; otherwise it succeeds iff every concrete entry is valid, and raises the out-of-bounds error with the NaN-ignoring check vector if not; the sample keeps the concrete entries and draws each NaN entry from its row |
| Tsrs.SampleWithinBounds | src/prpy/tsr/tsr.py:161-176 | with ordered rows and unit draws, every sampled entry is a number and every drawn entry lies in its row |
| Tsrs.Sample | src/prpy/tsr/tsr.py:178-187 | sample succeeds only when sample_xyzrpy succeeds on a 6-long pose |
| Tsrs.SampleIsValid | src/prpy/tsr/tsr.py:161-187 | sampling an ordered TSR from a 6-long pose whose concrete entries are valid gives a pose that passes is_valid entry by entry, and sample returns its transform |
| Tsrs.DefaultSampleIsValid | src/prpy/tsr/tsr.py:161-187 | with the default all-NaN input, sample always succeeds on an ordered TSR |
| Tsrs.TsrToDict | src/prpy/tsr/tsr.py:189-197 | the dictionary has exactly the keys T0_w, Tw_e, Bw, manipindex and bodyandlink |
| Tsrs.TsrFromDict | src/prpy/tsr/tsr.py:199-208 | it succeeds iff the three required keys hold matrices, the optional ones are absent or of the right kind, and Bw passes the width check (otherwise the width error); a missing T0_w raises its missing-key error; the state takes the stored values, with -1 and 'NULL' as the defaults |
| Tsrs.TsrDictRoundTrip | src/prpy/tsr/tsr.py:189-208 | from_dict(to_dict(t)) gives back every attribute of a constructed TSR |
| Tsrs.Tsr.constructor | src/prpy/tsr/tsr.py:53-62 | the object's attributes are the validated state |
| Tsrs.Tsr.New | src/prpy/tsr/tsr.py:43-62 | TSR(...) raises exactly when the constructor's check fails, with the width error; otherwise it gives a fresh object holding the constructed state |
| Tsrs.Tsr.FromDict | src/prpy/tsr/tsr.py:199-208 | TSR.from_dict gives a fresh object holding the decoded state, or the decoding error |
| Tsrs.Tsr.IsValid | src/prpy/tsr/tsr.py:97-125 | the check vector built in place equals the is_valid specification, error included |
| TsrChains.States | src/prpy/tsr/tsr.py:273 | the states of the chain's TSR objects, element by element |
| TsrChains.LastWrite | src/prpy/tsr/tsr.py:368-370 | the index it gives is -1 or a step before n whose TSR is the very object ts[k] |
| TsrChains.LastWriteIsLast | src/prpy/tsr/tsr.py:368-370 | no later step of the first n stores into ts[k], and the index is -1 exactly when none of them does |
| TsrChains.FoldTo | src/prpy/tsr/tsr.py:367-373 | definition: the result of the first k steps of the chain's left fold, step j being TSR j's transform with T0_w set to the result so far, the first failing step deciding the result; FoldStepProduct, FoldNext, FoldErrorPersists, FoldSucceeds, PrefixFold and TwoTsrChain characterise it |
| TsrChains.Fold | src/prpy/tsr/tsr.py:367-373 | definition: FoldTo over the whole chain, the value to_transform returns; TsrChains.TsrChain.Walk and ToTransform state that the loop computes it |
| TsrChains.HeldFrame | src/prpy/tsr/tsr.py:368-371 | definition: the frame TSR object k holds after the first n steps, the last one stored into that object among the steps reached, else its original T0_w; HeldFrameOfWrites, HeldFrameAtError, HeldFrameAfterError and HeldFrameDistinct characterise it |
| TsrChains.HeldFrameOfWrites | src/prpy/tsr/tsr.py:368-371 | when the first n steps are all reached, storing the listed frames in order, the frame an object holds is the one stored by the last step that reached it |
| TsrChains.HeldFrameAtError | src/prpy/tsr/tsr.py:368-371 | when step m - 1 is the first to raise, each object holds what the steps up to it stored |
| TsrChains.WrittenExtend | src/prpy/tsr/tsr.py:368-371 | the frames stored so far, extended by the next step's input frame, are still the results of the steps before each |
| TsrChains.FrameAfterStore | src/prpy/tsr/tsr.py:369-370 | storing one more frame changes what the stored-to object holds to that frame, and what every other object holds not at all |
| TsrChains.FoldNext | src/prpy/tsr/tsr.py:370-371 | one more step of the fold from a reached frame is that TSR's transform with T0_w set to the frame |
| TsrChains.FoldErrorPersists | src/prpy/tsr/tsr.py:368-371 | once a step of the walk raises, every longer walk raises the same error |
| TsrChains.HeldFrameAfterError | src/prpy/tsr/tsr.py:368-371 | after a step raises, no later write happens, so the frames the objects hold stay as they were |
| TsrChains.FoldStepProduct | src/prpy/tsr/tsr.py:368-373 | each successful step composes on the right: R_k = R_{k-1} * Tw(b_k) * Tw_e_k, the pose being 6 long |
| TsrChains.HeldFrameDistinct | src/prpy/tsr/tsr.py:368-371 | when no object occurs twice, TSR k holds the result of the first k steps once step k is reached, and its original frame otherwise |
| TsrChains.FoldSucceeds | src/prpy/tsr/tsr.py:368-373 | when every pose is 6 long and valid, every prefix of the walk succeeds, from any starting frame |
| TsrChains.FoldStopsAtWrongLength | src/prpy/tsr/tsr.py:363-373 | when every check passes and pose m is the first one not 6 long, steps 0..m are all reached and the chain raises the length error |
| TsrChains.PrefixFold | src/prpy/tsr/tsr.py:368-371 | the walk over a prefix agrees with the walk over the whole chain on the steps they share |
| TsrChains.TwoTsrChain | src/prpy/tsr/tsr.py:367-373 | for two TSRs, the result is TSR 2's transform with T0_w set to TSR 1's transform |
| TsrChains.PosesOrDefault | src/prpy/tsr/tsr.py:385-386 | an omitted pose list becomes one all-NaN pose per TSR; a given list is used as is |
| TsrChains.ChainToDict | src/prpy/tsr/tsr.py:283-292 | the dictionary has exactly the six chain keys |
| TsrChains.TsrsFromDicts | src/prpy/tsr/tsr.py:301 | the decoded list succeeds iff every element decodes, and then holds each element's state in order, each well formed |
| TsrChains.ChainFromDict | src/prpy/tsr/tsr.py:294-304 | a missing sample_start raises its missing-key error; it succeeds iff every key is present with the right kind and every TSR decodes; the fields are the stored values |
| TsrChains.ChainDictRoundTrip | src/prpy/tsr/tsr.py:283-304 | from_dict(to_dict(c)) gives back the flags, the mimic body and every TSR, in order |
| TsrChains.ValidChainRoundTrip | src/prpy/tsr/tsr.py:283-304 | for a chain object whose TSRs keep their construction invariant, every member state is well formed and from_dict(to_dict(...)) gives back the chain's record |
| TsrChains.TsrChain.constructor | src/prpy/tsr/tsr.py:245-278 | the flags and mimic body are the arguments; the joint list defaults to empty; the TSR list is the single TSR, if given, followed by the given list; the chain is valid iff every given TSR is |
| TsrChains.TsrChain.AppendAll | src/prpy/tsr/tsr.py:276-278 | the given TSRs are appended in order, nothing else changes, and the chain stays valid iff all of them are |
| TsrChains.AllValidConcat | src/prpy/tsr/tsr.py:273-281 | a concatenation of TSR lists is valid iff both parts are |
| TsrChains.TsrChain.Append | src/prpy/tsr/tsr.py:280-281 | the TSR is added at the end and nothing else changes; the chain stays valid iff the new TSR is |
| TsrChains.TsrChain.IsValid | src/prpy/tsr/tsr.py:338-353 | lengths that differ raise; otherwise it succeeds iff no pose is longer than 6 when NaNs are ignored (else the mask error), and element k is TSR k's check vector |
| TsrChains.TsrChain.ToTransform | src/prpy/tsr/tsr.py:355-373 | it raises and writes no frame when the lengths differ, a check fails (with every element's check vector) or the chain is empty; otherwise the result is the left fold from TSR 0's frame, and each object holds the last frame written to it; without aliasing, TSR k holds the result of the first k steps |
| TsrChains.TsrChain.Walk | src/prpy/tsr/tsr.py:367-373 | the in-place loop returns the fold from TSR 0's frame; the frames it stores are the results of the steps reached, one per step, ending at the last TSR or at the first step that raises; each object holds the last frame stored into it |
| TsrChains.TsrChain.Step | src/prpy/tsr/tsr.py:369-371 | one iteration stores the result so far into TSR idx, changing only what that object holds, and its result is the fold one step further, which is the whole fold's result when the step raises |
| TsrChains.TsrChain.SampleXyzrpy | src/prpy/tsr/tsr.py:375-392 | it succeeds iff the pose list (all NaN by default) covers the chain and every TSR samples its own pose; the result is the per-TSR samples in order; on failure the error is that of the first TSR in order that fails, MissingPose when the list runs out first (FirstSampleFailure) |
| TsrChains.TsrChain.NewTsrs | src/prpy/tsr/tsr.py:301 | one fresh, distinct, valid TSR object per decoded state, in order |
| TsrChains.TsrChain.FromDict | src/prpy/tsr/tsr.py:294-304 | it raises exactly when decoding fails, with that error; otherwise it gives a fresh chain of fresh, distinct TSRs whose record is the decoded one |

## Left out

- `TSR.to_xyzrpy`, `TSR.contains` and `TSR.distance`, and the chain's `distance` (tsr.py:405-430) with `TSRChain.contains` and `TSRChain.to_xyzrpy` (tsr.py:432-448), which wrap it: they invert transforms, convert quaternions and call an L-BFGS optimiser. These are floating-point geometry and foreign numerical code, which the symbolic transforms here cannot express.
- `TSRChain.sample`: it is `to_transform(sample_xyzrpy(xyzrpy))`, so it is the composition of two modelled methods.
- `to_json`, `from_json`, `to_yaml` and `from_yaml` are left out because they only parse or print text. `TSR.to_json` and `TSR.to_yaml` print `TSR.to_dict`, and `TSR.from_json` and `TSR.from_yaml` pass the parsed dictionary to `TSR.from_dict` (tsr.py:210-240). `TSRChain.to_json` and `TSRChain.to_yaml` print `TSRChain.to_dict`. `TSRChain.from_json` and `TSRChain.from_yaml` pass the parsed chain dictionary to `TSR.from_dict`, not to `TSRChain.from_dict` (tsr.py:306-336), so they return a TSR (or raise) rather than a chain.
- The `openravepy` Robot test for `manip` (tsr.py:58-59) is a foreign call. `manip` is an integer or omitted.
- Random numbers are parameters: `numpy.random.random_sample()` becomes a given draw per entry.
- Floats are mathematical reals: there is no rounding, no infinity and no NaN inside `Bw` or a transform. `pi` is the decimal literal of the double `math.pi`, and `2*pi` is its exact double.
- The 6x2 shape of `Bw` is fixed by its type. Bound matrices of other shapes, and numpy's own errors on them, are not modelled.
- `tolist` and `numpy.array` are treated as lossless. The 0-d arrays `from_dict` makes of `manipindex` and `bodyandlink` are stored as a plain integer and string.
- Dictionary values are limited to the kinds the library writes: matrix, bound matrix, integer, string, boolean, integer list and list of records.
- Records.GetBox: the source stores any value at `Bw` whose columns 1 and 0 can be subtracted row by row without a row wider than 2*pi + EPSILON, such as a 4x4 matrix; the model raises WrongType on every value that is not a 6x2 bound matrix.
- Records.GetTransform: the source passes `x['T0_w']` and `x['Tw_e']` through `numpy.array` and stores them unchecked; the model raises WrongType on a value that is not a matrix.
- Records.GetBool: the source stores `sample_start`, `sample_goal` and `constrain` unchecked; the model raises WrongType on a value that is not a boolean.
- Records.GetStr: the source stores `mimicbodyname` unchecked; the model raises WrongType on a value that is not a string.
- Records.GetInts: the source stores `mimicbodyjoints` unchecked; the model raises WrongType on a value that is not an integer list.
- Records.GetRecords: the source iterates whatever `tsrs` holds, so an empty list of any kind gives an empty chain and a non-iterable raises a TypeError; the model raises WrongType on a value that is not a list of records.
- Records.GetIntOr: the source stores a present `manipindex` of any kind; the model raises WrongType on a value that is not an integer.
- Records.GetStrOr: the source stores a present `bodyandlink` of any kind; the model raises WrongType on a value that is not a string.
- At tsr.py:347, `raise(...)` of a plain string fails with a TypeError, not with the intended message. It is modelled as the error `ChainLengthMismatch`.
- An attribute other than T0_w that a caller reassigns from outside the class: nothing in the library does this, so those attributes are constants of `Tsr`.
- Tsrs.Check: its rotational entries use the corrected check of the tsr.py:113-117 Findings row, not the source's wrap, so on rows whose wrapped bounds cross +-pi the vector differs from the source's (row [-pi, pi] at roll 0, row [0, pi] at 1.5). Every member built on it inherits the correction: Tsrs.ToTransform, Tsrs.SampleXyzrpy, Tsrs.Sample, TsrChains.TsrChain.IsValid, TsrChains.TsrChain.ToTransform and TsrChains.TsrChain.SampleXyzrpy. The NaN mask is written as the source writes it, and a mask longer than the vector raises; numpy's other mask errors for malformed inputs are not modelled.

## Findings

| source | as written | input that shows it | evidently intended | confidence | as-written member | corrected member |
|---|---|---|---|---|---|---|
| src/prpy/tsr/tsr.py:74-75 | `if not self.is_valid(xyzrpy)` applies `not` to a 6-element numpy array, which raises "truth value of an array is ambiguous" | the default TSR and the pose [0, 0, 0, 0, 0, 0] | raise unless every entry of the check is True (`not all(...)`, as the chain's to_transform at line 365 writes it) | not executed | Tsrs.ToTransformAsWritten, Tsrs.AsWrittenRejectsValidPose | Tsrs.ToTransform |
| src/prpy/tsr/tsr.py:113-117 | the bounds of each rotation row are wrapped into [-pi, pi) separately from the angle | the row [-pi, pi] wraps to [-pi, -pi], so the angle 0 is rejected though the row is the full circle | an angle is valid iff some whole-turn shift of it lies within [min - EPSILON, max + EPSILON] | not executed | Geometry.RotationWithinAsWritten, Geometry.FullCircleRejectsZero | Geometry.RotationWithin, Geometry.RotationWithinIff |
