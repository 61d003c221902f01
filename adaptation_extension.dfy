/** The adaptation field extension: its length, three leading flags and the
    flag-gated legal-time-window, piecewise-rate and seamless-splice fields
    (Table 2-6 of ITU-T H.222.0). DTS_next_AU is not decoded. */
module AdaptationExtension {
  import opened Common

  datatype AdaptationExtension = AdaptationExtension(
    adaptationExtensionLength: byte,
    legalTimeWindowFlag: bool,
    piecewiseRateFlag: bool,
    seamlessSpliceFlag: bool,
    legalTimeWindowValidFlag: bool,
    legalTimeWindowOffset: uint15,
    piecewiseRate: uint22,
    spliceType: uint4,
    dtsNextAccessUnit: nat)

  /** Bit of the flags byte that carries seamless_splice_flag in Table 2-6. */
  const SeamlessSpliceBit: nat := 5

  /** Bytes the decoder reads for a given flags byte: the length and flags
      bytes, 2 for the legal time window, 3 for the piecewise rate and 1 for
      the splice type. */
  function ExtensionSize(flags: byte, ssBit: nat): nat
    requires ssBit < 8
  {
    2 + (if Bit(flags, 7) then 2 else 0) + (if Bit(flags, 6) then 3 else 0)
      + (if Bit(flags, ssBit) then 1 else 0)
  }

  /** The decoder of adaptation_extension.go with the seamless-splice flag
      taken from bit `ssBit` of the flags byte. A local read head starts
      at 2 and moves past each present sub-field. Where the Go code would
      index past the slice this gives OutOfBounds. */
  function DecodeExtension(b: seq<byte>, ssBit: nat): (r: Result<AdaptationExtension>)
    requires ssBit < 8
    ensures r.Ok? <==> 2 <= |b| && ExtensionSize(b[1], ssBit) <= |b|
  {
    if |b| < 2 then Err(OutOfBounds)
    else
      var flags := b[1];
      var ltw, pr, ss := Bit(flags, 7), Bit(flags, 6), Bit(flags, ssBit);
      var i0 := 2;
      if ltw && |b| < i0 + 2 then Err(OutOfBounds)
      else
        var valid := ltw && Bit(b[i0], 7);
        var offset: uint15 := if ltw then (b[i0] as int % 0x80) * 0x100 + b[i0 + 1] as int else 0;
        var i1 := if ltw then i0 + 2 else i0;
        if pr && |b| < i1 + 3 then Err(OutOfBounds)
        else
          var rate: uint22 :=
            if pr then (b[i1] as int % 0x40) * 0x1_0000 + b[i1 + 1] as int * 0x100 + b[i1 + 2] as int
            else 0;
          var i2 := if pr then i1 + 3 else i1;
          if ss && |b| < i2 + 1 then Err(OutOfBounds)
          else
            var spliceType: uint4 := if ss then b[i2] / 0x10 else 0;
            Ok(AdaptationExtension(b[0], ltw, pr, ss, valid, offset, rate, spliceType, 0))
  }

  /** The extension decoder, with seamless_splice_flag at bit 5 as Table 2-6 has it. */
  function ParseAdaptationExtension(b: seq<byte>): (r: Result<AdaptationExtension>)
    // it fails exactly when the slice is shorter than the fields its flags announce
    ensures r.Ok? <==> 2 <= |b| && ExtensionSize(b[1], SeamlessSpliceBit) <= |b|
    ensures r.Err? ==> r.error == OutOfBounds
    ensures r.Ok? ==> ExtensionLayout(b, r.value)
  {
    var r := DecodeExtension(b, SeamlessSpliceBit);
    if r.Ok? then ExtensionLayoutHolds(b); r else r
  }

  /** Where each decoded field comes from: the flags are bits 7, 6 and 5 of
      b[1]; the legal-time-window pair sits at 2, the rate after it and the
      splice type after both; a field whose flag is clear stays zero. */
  ghost predicate ExtensionLayout(b: seq<byte>, e: AdaptationExtension)
    requires 2 <= |b| && ExtensionSize(b[1], SeamlessSpliceBit) <= |b|
  {
    var rateAt := 2 + (if e.legalTimeWindowFlag then 2 else 0);
    var spliceAt := rateAt + (if e.piecewiseRateFlag then 3 else 0);
    && e.adaptationExtensionLength == b[0]
    && e.legalTimeWindowFlag == Bit(b[1], 7)
    && e.piecewiseRateFlag == Bit(b[1], 6)
    && e.seamlessSpliceFlag == Bit(b[1], 5)
    && (if e.legalTimeWindowFlag
        then e.legalTimeWindowValidFlag == Bit(b[2], 7)
             && e.legalTimeWindowOffset == (b[2] as int % 0x80) * 0x100 + b[3] as int
        else !e.legalTimeWindowValidFlag && e.legalTimeWindowOffset == 0)
    && (if e.piecewiseRateFlag
        then e.piecewiseRate == (b[rateAt] as int % 0x40) * 0x1_0000 + b[rateAt + 1] as int * 0x100
                                + b[rateAt + 2] as int
        else e.piecewiseRate == 0)
    && (if e.seamlessSpliceFlag then e.spliceType == b[spliceAt] / 0x10 else e.spliceType == 0)
    && e.dtsNextAccessUnit == 0
  }

  lemma ExtensionLayoutHolds(b: seq<byte>)
    requires 2 <= |b| && ExtensionSize(b[1], SeamlessSpliceBit) <= |b|
    ensures DecodeExtension(b, SeamlessSpliceBit).Ok?
    ensures ExtensionLayout(b, DecodeExtension(b, SeamlessSpliceBit).value)
  {
  }

  /** The Go code as written, which reads seamless_splice_flag from bit 7. */
  function ParseAdaptationExtensionAsWritten(b: seq<byte>): (r: Result<AdaptationExtension>)
    // as written, the seamless-splice flag is always a copy of the legal-time-window flag
    ensures r.Ok? ==> r.value.seamlessSpliceFlag == r.value.legalTimeWindowFlag
  {
    DecodeExtension(b, 7)
  }

  /** An extension announcing only a seamless splice (flags 0x20): Table 2-6
      gives splice type 3; the code as written sees no splice at all. */
  lemma SeamlessSpliceFlagAsWrittenMisread()
    ensures ParseAdaptationExtension([2, 0x20, 0x30]) ==
            Ok(AdaptationExtension(2, false, false, true, false, 0, 0, 3, 0))
    ensures ParseAdaptationExtensionAsWritten([2, 0x20, 0x30]) ==
            Ok(AdaptationExtension(2, false, false, false, false, 0, 0, 0, 0))
  {
  }
}
