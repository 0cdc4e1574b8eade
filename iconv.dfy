/**
 * The iconv back-end's converter (src/sys/iconv/ffi.rs): `LossyIconv::new`,
 * which opens a descriptor with "//IGNORE" appended to the target name, and
 * `LossyIconv::convert`, which calls `iconv` into the spare room of a growing
 * output vector until a call succeeds.
 *
 * `iconv_open` and `iconv` are parameters. A call to `iconv` is seen only
 * through what it reports back: the input bytes it left, the bytes it wrote
 * into the spare room, and whether it succeeded, stopped with E2BIG or failed
 * with any other errno.
 */
module Iconv {
  import opened Wrappers
  import opened Bytes
  import opened Errors

  /** An open conversion descriptor (`iconv_t`). */
  type Descriptor = int

  /** `iconv_open(tocode, fromcode)`: a descriptor, or `None` for `(iconv_t)-1`. */
  type IconvOpen = (string, string) -> Option<Descriptor>

  /** How one `iconv` call ended: a result other than -1, -1 with E2BIG, -1 with any other errno. */
  datatype Status = Converted | TooBig | Failed

  /** What one `iconv` call reports: `*inbytesleft` afterwards, the bytes written, and how it ended. */
  datatype StepResult = StepResult(inLeft: nat, written: seq<byte>, status: Status)

  /** `iconv(cd, &in, &inlen, &out, &outlen)` on the input still to convert and `outlen` bytes of room. */
  type IconvStep = (Descriptor, seq<byte>, nat) -> StepResult

  /** `LossyIconv`: the descriptor it owns. */
  datatype LossyIconv = LossyIconv(cd: Descriptor)

  function Max(a: nat, b: nat): nat { if a < b then b else a }

  function Min(a: nat, b: nat): nat { if a < b then a else b }

  // ---------------------------------------------------------------------
  // Opening.

  /** `str::contains("//")`. */
  predicate HasSlashes(s: string)
  {
    exists i | 0 <= i < |s| - 1 :: s[i] == '/' && s[i + 1] == '/'
  }

  /** The target name handed to `iconv_open`: "//IGNORE" is appended exactly when the name has no "//" anywhere in it. */
  function TargetName(to: string): (r: string)
    ensures r == to <==> HasSlashes(to)
    ensures r == to || r == to + "//IGNORE"
    ensures HasSlashes(r)
    ensures '\0' in r <==> '\0' in to
  {
    if HasSlashes(to) then to
    else
      var r := to + "//IGNORE";
      assert r[|to|] == '/' && r[|to| + 1] == '/';
      r
  }

  /**
   * `LossyIconv::new`: a label with a NUL inside cannot become a C string,
   * and `iconv_open` may refuse the pair; both give `UnknownConversion`.
   */
  function New(from: string, to: string, open: IconvOpen): (r: Result<LossyIconv, ConvertLossyError>)
    ensures r.Err? ==> r.error == LossyUnknownConversion
    ensures r.Ok? <==> '\0' !in from && '\0' !in to && open(TargetName(to), from).Some?
    ensures r.Ok? ==> r.value.cd == open(TargetName(to), from).value
  {
    if '\0' in from then Err(LossyUnknownConversion)
    else
      var target := TargetName(to);
      if '\0' in target then Err(LossyUnknownConversion)
      else
        match open(target, from)
        case None => Err(LossyUnknownConversion)
        case Some(cd) => Ok(LossyIconv(cd))
  }

  // ---------------------------------------------------------------------
  // The output vector.

  /**
   * The capacity `Vec::reserve(additional)` leaves: unchanged when the spare
   * room already suffices, otherwise the amortized growth of the standard
   * library for byte vectors (twice the capacity, at least what is asked,
   * at least 8).
   */
  function Grown(len: nat, cap: nat, additional: nat): (r: nat)
    requires len <= cap
    ensures r >= cap && r >= len + additional
    ensures r == cap <==> len + additional <= cap
  {
    if len + additional <= cap then cap else Max(8, Max(2 * cap, len + additional))
  }

  /** A `Vec<u8>`: its initialized bytes and its capacity. */
  class OutputVec {
    var data: seq<byte>
    var capacity: nat

    ghost predicate Valid()
      reads this
    {
      |data| <= capacity
    }

    /** `spare_capacity_mut().len()`. */
    function Spare(): nat
      reads this
      requires Valid()
    {
      capacity - |data|
    }

    /** `Vec::with_capacity(n)`. */
    constructor WithCapacity(n: nat)
      ensures Valid()
      ensures data == [] && capacity == n
    {
      data := [];
      capacity := n;
    }

    /** `set_len` after `iconv` wrote `written` into the spare room: the bytes become part of the vector. */
    method SetLen(written: seq<byte>)
      modifies this
      requires Valid() && |written| <= Spare()
      ensures Valid()
      ensures data == old(data) + written && capacity == old(capacity)
    {
      data := data + written;
    }

    /** `reserve(additional)`. */
    method Reserve(additional: nat)
      modifies this
      requires Valid()
      ensures Valid()
      ensures data == old(data) && capacity == Grown(|data|, old(capacity), additional)
    {
      capacity := Grown(|data|, capacity, additional);
    }

    /** `shrink_to_fit`. */
    method ShrinkToFit()
      modifies this
      requires Valid()
      ensures Valid()
      ensures data == old(data) && capacity == |data|
    {
      capacity := |data|;
    }
  }

  // ---------------------------------------------------------------------
  // Converting.

  /** `iconv` never reports more input left than it was given, nor more bytes written than it had room for. */
  ghost predicate WellBehaved(iconv: IconvStep, cd: Descriptor)
  {
    forall rest: seq<byte>, room: nat ::
      iconv(cd, rest, room).inLeft <= |rest| && |iconv(cd, rest, room).written| <= room
  }

  /**
   * The progress the loop relies on to end: no conversion writes more than
   * `k` bytes per input byte, so with `k` bytes of room for every byte still
   * to convert (and so with nothing left to convert) `iconv` does not stop
   * with E2BIG.
   */
  ghost predicate Progress(iconv: IconvStep, cd: Descriptor, k: nat)
  {
    forall rest: seq<byte>, room: nat ::
      room >= Need(k, rest) ==> iconv(cd, rest, room).status != TooBig
  }

  /** The room `Progress` asks for: `k` bytes per byte still to convert. */
  function Need(k: nat, rest: seq<byte>): nat { k * |rest| }

  /** Moving past consumed input never raises the room still needed. */
  lemma ShrinkingNeed(k: nat, rest: seq<byte>, left: nat)
    requires left <= |rest|
    ensures Need(k, rest[|rest| - left..]) <= Need(k, rest)
  {
    assert |rest[|rest| - left..]| == left;
  }

  /** A call that stops with E2BIG had less room than `Progress` asks for. */
  lemma TooBigIsShort(iconv: IconvStep, cd: Descriptor, k: nat, rest: seq<byte>, room: nat)
    requires Progress(iconv, cd, k)
    requires iconv(cd, rest, room).status == TooBig
    ensures room < Need(k, rest)
  {
  }

  /**
   * The measure of the loop of `convert`: twice the room the capacity still
   * lacks, plus one while the spare room is short of what is needed.
   */
  function Measure(k: nat, rest: seq<byte>, len: nat, cap: nat): nat
  {
    var need := Need(k, rest);
    2 * (need - Min(cap, need)) + (if cap >= len + need then 0 else 1)
  }

  /**
   * The measure drops after an E2BIG: the room still needed does not grow,
   * the capacity more than doubles, and the bytes kept fit the old capacity.
   */
  lemma MeasureDrops(k: nat, rest: seq<byte>, len: nat, cap: nat, rest': seq<byte>, len': nat, cap': nat)
    requires Need(k, rest') <= Need(k, rest) && len <= cap && cap < len + Need(k, rest)
    requires len' <= cap && cap' >= 2 * cap && cap' > cap
    ensures Measure(k, rest', len', cap') < Measure(k, rest, len, cap)
  {
  }

  /**
   * The rest of the loop of `convert` from the input still to convert, the
   * bytes already kept and the capacity: `None` is the "iconv error" panic.
   * Bytes written by a call that stopped with E2BIG are kept, the input
   * moves past exactly what that call consumed, and the capacity at least
   * doubles.
   */
  function Drive(cd: Descriptor, rest: seq<byte>, out: seq<byte>, cap: nat, iconv: IconvStep, k: nat)
    : (r: Option<seq<byte>>)
    requires WellBehaved(iconv, cd) && Progress(iconv, cd, k)
    requires |out| <= cap && (cap == 0 ==> rest == [])
    ensures r.Some? ==> out <= r.value
    decreases Measure(k, rest, |out|, cap)
  {
    var s := iconv(cd, rest, cap - |out|);
    var kept := out + s.written;
    match s.status
    case Converted => Some(kept)
    case Failed => None
    case TooBig =>
      var cap' := Grown(|kept|, cap, 2 * cap - |kept|);
      ShrinkingNeed(k, rest, s.inLeft);
      TooBigIsShort(iconv, cd, k, rest, cap - |out|);
      MeasureDrops(k, rest, |out|, cap, rest[|rest| - s.inLeft..], |kept|, cap');
      Drive(cd, rest[|rest| - s.inLeft..], kept, cap', iconv, k)
  }

  /** A turn of the loop of `convert` whose call ends it: the bytes kept, or the panic. */
  lemma DriveEnds(cd: Descriptor, rest: seq<byte>, out: seq<byte>, cap: nat, iconv: IconvStep, k: nat)
    requires WellBehaved(iconv, cd) && Progress(iconv, cd, k)
    requires |out| <= cap && (cap == 0 ==> rest == [])
    requires iconv(cd, rest, cap - |out|).status != TooBig
    ensures iconv(cd, rest, cap - |out|).status == Converted
      ==> Drive(cd, rest, out, cap, iconv, k) == Some(out + iconv(cd, rest, cap - |out|).written)
    ensures iconv(cd, rest, cap - |out|).status == Failed ==> Drive(cd, rest, out, cap, iconv, k) == None
  {
  }

  /**
   * A turn of the loop of `convert` whose call stops with E2BIG: the loop
   * goes on from the state it leaves, and the measure of the loop drops.
   */
  lemma DriveTooBig(cd: Descriptor, rest: seq<byte>, out: seq<byte>, cap: nat, iconv: IconvStep, k: nat,
                    rest': seq<byte>, out': seq<byte>, cap': nat)
    requires WellBehaved(iconv, cd) && Progress(iconv, cd, k)
    requires |out| <= cap && (cap == 0 ==> rest == [])
    requires iconv(cd, rest, cap - |out|).status == TooBig
    requires rest' == rest[|rest| - iconv(cd, rest, cap - |out|).inLeft..]
    requires out' == out + iconv(cd, rest, cap - |out|).written
    requires cap' == Grown(|out'|, cap, 2 * cap - |out'|)
    ensures |out'| <= cap' && cap' > 0
    ensures Drive(cd, rest', out', cap', iconv, k) == Drive(cd, rest, out, cap, iconv, k)
    ensures Measure(k, rest', |out'|, cap') < Measure(k, rest, |out|, cap)
  {
    TooBigGrows(cd, rest, out, cap, iconv, k);
    var s := iconv(cd, rest, cap - |out|);
    ShrinkingNeed(k, rest, s.inLeft);
    MeasureDrops(k, rest, |out|, cap, rest', |out'|, cap');
    DriveUnfoldsTooBig(cd, rest, out, cap, iconv, k);
  }

  /** After an E2BIG the bytes kept fit the old capacity, which was too small and not empty, and more than doubles. */
  lemma TooBigGrows(cd: Descriptor, rest: seq<byte>, out: seq<byte>, cap: nat, iconv: IconvStep, k: nat)
    requires WellBehaved(iconv, cd) && Progress(iconv, cd, k)
    requires |out| <= cap && (cap == 0 ==> rest == [])
    requires iconv(cd, rest, cap - |out|).status == TooBig
    ensures var s := iconv(cd, rest, cap - |out|);
      var kept := out + s.written;
      && s.inLeft <= |rest| && |kept| <= cap && cap - |out| < Need(k, rest) && cap > 0
      && Grown(|kept|, cap, 2 * cap - |kept|) >= 2 * cap
  {
    TooBigIsShort(iconv, cd, k, rest, cap - |out|);
  }

  /** `Drive` after an E2BIG is `Drive` from the state that call leaves. */
  lemma DriveUnfoldsTooBig(cd: Descriptor, rest: seq<byte>, out: seq<byte>, cap: nat, iconv: IconvStep, k: nat)
    requires WellBehaved(iconv, cd) && Progress(iconv, cd, k)
    requires |out| <= cap && (cap == 0 ==> rest == [])
    requires iconv(cd, rest, cap - |out|).status == TooBig
    ensures var s := iconv(cd, rest, cap - |out|);
      var kept := out + s.written;
      && s.inLeft <= |rest| && |kept| <= cap && cap > 0 && Grown(|kept|, cap, 2 * cap - |kept|) > cap
      && Drive(cd, rest, out, cap, iconv, k)
         == Drive(cd, rest[|rest| - s.inLeft..], kept, Grown(|kept|, cap, 2 * cap - |kept|), iconv, k)
  {
    TooBigGrows(cd, rest, out, cap, iconv, k);
  }

  /** `LossyIconv::convert`: the output starts with a capacity equal to the input length. */
  method Convert(conv: LossyIconv, input: seq<byte>, iconv: IconvStep, ghost k: nat) returns (res: Option<seq<byte>>)
    requires WellBehaved(iconv, conv.cd) && Progress(iconv, conv.cd, k)
    ensures res == Drive(conv.cd, input, [], |input|, iconv, k)
  {
    ghost var outcome := Drive(conv.cd, input, [], |input|, iconv, k);
    var output := new OutputVec.WithCapacity(|input|);
    var rest := input;
    while true
      invariant output.Valid()
      invariant output.capacity == 0 ==> rest == []
      invariant Drive(conv.cd, rest, output.data, output.capacity, iconv, k) == outcome
      decreases Measure(k, rest, |output.data|, output.capacity)
    {
      var s := iconv(conv.cd, rest, output.Spare());
      ghost var rest0, data0, cap := rest, output.data, output.capacity;
      output.SetLen(s.written);
      if s.status == Converted {
        DriveEnds(conv.cd, rest0, data0, cap, iconv, k);
        output.ShrinkToFit();
        return Some(output.data);
      } else if s.status == Failed {
        // panic!("iconv error")
        DriveEnds(conv.cd, rest0, data0, cap, iconv, k);
        return None;
      }
      rest := rest[|rest| - s.inLeft..];
      output.Reserve(output.capacity * 2 - |output.data|);
      DriveTooBig(conv.cd, rest0, data0, cap, iconv, k, rest, output.data, output.capacity);
    }
  }

  // ---------------------------------------------------------------------
  // Properties.

  /** A name that already carries "//" (such as "//TRANSLIT") is kept, and the rule never appends twice. */
  lemma TargetNameIdempotent(to: string)
    ensures TargetName(TargetName(to)) == TargetName(to)
  {
  }

  /** When the first call fits into a capacity equal to the input length, the output is exactly what it wrote. */
  lemma FirstCallFits(cd: Descriptor, input: seq<byte>, iconv: IconvStep, k: nat)
    requires WellBehaved(iconv, cd) && Progress(iconv, cd, k)
    requires iconv(cd, input, |input|).status == Converted
    ensures Drive(cd, input, [], |input|, iconv, k) == Some(iconv(cd, input, |input|).written)
  {
    var w := iconv(cd, input, |input|).written;
    assert [] + w == w;
  }

  /** The growth in `convert`: from a non-empty vector the capacity at least doubles; an empty one stays empty. */
  lemma GrowthDoubles(len: nat, cap: nat)
    requires len <= cap
    ensures cap > 0 ==> Grown(len, cap, 2 * cap - len) >= 2 * cap
    ensures cap == 0 ==> Grown(len, cap, 2 * cap - len) == 0
  {
  }

  /**
   * The expansion factor only serves termination: the output does not depend
   * on which factor the progress condition is stated with.
   */
  lemma {:induction false} DriveIgnoresFactor(cd: Descriptor, rest: seq<byte>, out: seq<byte>, cap: nat, iconv: IconvStep,
                                             k1: nat, k2: nat)
    requires WellBehaved(iconv, cd) && Progress(iconv, cd, k1) && Progress(iconv, cd, k2)
    requires |out| <= cap && (cap == 0 ==> rest == [])
    ensures Drive(cd, rest, out, cap, iconv, k1) == Drive(cd, rest, out, cap, iconv, k2)
    decreases Measure(k1, rest, |out|, cap)
  {
    var s := iconv(cd, rest, cap - |out|);
    if s.status == TooBig {
      var kept := out + s.written;
      var cap' := Grown(|kept|, cap, 2 * cap - |kept|);
      ShrinkingNeed(k1, rest, s.inLeft);
      TooBigIsShort(iconv, cd, k1, rest, cap - |out|);
      MeasureDrops(k1, rest, |out|, cap, rest[|rest| - s.inLeft..], |kept|, cap');
      DriveIgnoresFactor(cd, rest[|rest| - s.inLeft..], kept, cap', iconv, k1, k2);
    }
  }

  /**
   * A converter that copies bytes as they are, writing as many as there is
   * room for and stopping with E2BIG when the room runs out.
   */
  function CopyStep(cd: Descriptor, rest: seq<byte>, room: nat): (s: StepResult)
    ensures s.inLeft <= |rest| && |s.written| <= room
    ensures rest[..|rest| - s.inLeft] == s.written
    ensures s.status == TooBig <==> room < |rest|
  {
    if |rest| <= room then StepResult(0, rest, Converted)
    else StepResult(|rest| - room, rest[..room], TooBig)
  }

  /** The assumptions of `convert` hold of a real converter: the copying one, one byte of room per byte. */
  lemma CopyStepProgresses(cd: Descriptor)
    ensures WellBehaved(CopyStep, cd) && Progress(CopyStep, cd, 1)
  {
  }

  /**
   * `convert` with the copying converter gives back its input, whatever the
   * bytes already kept and however little room there is at first: the E2BIG
   * path loses nothing and repeats nothing.
   */
  lemma {:induction false} DriveCopies(cd: Descriptor, rest: seq<byte>, out: seq<byte>, cap: nat)
    requires WellBehaved(CopyStep, cd) && Progress(CopyStep, cd, 1)
    requires |out| <= cap && (cap == 0 ==> rest == [])
    ensures Drive(cd, rest, out, cap, CopyStep, 1) == Some(out + rest)
    decreases Measure(1, rest, |out|, cap)
  {
    var s := CopyStep(cd, rest, cap - |out|);
    if s.status == TooBig {
      var kept := out + s.written;
      var rest' := rest[|rest| - s.inLeft..];
      var cap' := Grown(|kept|, cap, 2 * cap - |kept|);
      DriveTooBig(cd, rest, out, cap, CopyStep, 1, rest', kept, cap');
      DriveCopies(cd, rest', kept, cap');
      CopiedThenLeft(out, rest, s.written, s.inLeft);
    } else {
      DriveEnds(cd, rest, out, cap, CopyStep, 1);
    }
  }

  /** What the copying converter wrote, followed by what it left, is what it was given. */
  lemma CopiedThenLeft(out: seq<byte>, rest: seq<byte>, written: seq<byte>, left: nat)
    requires left <= |rest| && written == rest[..|rest| - left]
    ensures out + written + rest[|rest| - left..] == out + rest
  {
    assert rest == written + rest[|rest| - left..];
  }
}
