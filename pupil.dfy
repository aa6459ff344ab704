/** `M6Pupill`: a pupil image with its header, the threshold and region it is
    detected with, its mask, and the flat image synthesis starts from. */
module Pupils {
  import opened Results
  import opened Headers
  import opened Masks

  /** The default threshold and region of one instrument position (`at`). */
  datatype AtConfig = AtConfig(fluxTreshold: real, pupLocation: Region)

  /** The lookup table of defaults, keyed by instrument position. */
  type Lookup = map<real, AtConfig>

  /** What reading an image file yields: its path, its image and its header. */
  datatype FitsRead = FitsRead(path: string, data: Grid, header: map<string, real>)

  /** The flux of a synthesized pupil as the code is written: without an
      explicit flux it evaluates `p.mean(...)`, and `p` is bound nowhere. */
  function FluxDefaultAsWritten(flux: Option<real>): (r: Result<real>)
    ensures flux.Some? ==> r == Ok(flux.value)
    ensures flux.None? ==> r == Err(NameError("p"))
  {
    if flux.Some? then Ok(flux.value) else Err(NameError("p"))
  }

  /** The flux of a synthesized pupil as intended: the explicit flux, or else
      the mean of the masked pixels of the source image, which does not
      exist for an empty mask. */
  function FluxDefault(flux: Option<real>, d: Grid, m: seq<seq<bool>>): (r: Result<real>)
    requires SameShape(d, m)
    ensures flux.Some? ==> r == Ok(flux.value)
    ensures flux.None? ==> (r.Err? <==> Count(m) == 0)
    ensures r.Err? ==> r.error == EmptyMask
    ensures flux.None? && r.Ok? ==> r.value * Count(m) as real == MaskedSum(d, m)
  {
    if flux.Some? then Ok(flux.value)
    else match MaskedMean(d, m)
      case None => Err(EmptyMask)
      case Some(mean) => Ok(mean)
  }

  /** A call with no flux fails as written even when its mask selects pupil
      pixels, where the intended default exists and lies above the
      threshold. */
  lemma FluxDefaultAsWrittenFails(d: Grid, t: real, reg: Region)
    requires Count(Mask(d, t, reg)) > 0
    ensures FluxDefaultAsWritten(None) == Err(NameError("p"))
    ensures FluxDefault(None, d, Mask(d, t, reg)).Ok?
    ensures FluxDefault(None, d, Mask(d, t, reg)).value > t
  {
    MaskedMeanAboveThreshold(d, t, reg);
  }

  /** `flatImg = img.copy()`: the array takes the image's values. */
  method CopyInto(a: array2<real>, g: Grid)
    requires a.Length0 == |g| && a.Length1 == Width(g)
    modifies a
    ensures forall y, x :: 0 <= y < a.Length0 && 0 <= x < a.Length1 ==> a[y, x] == g[y][x]
  {
    for y := 0 to a.Length0
      invariant forall i, j :: 0 <= i < y && 0 <= j < a.Length1 ==> a[i, j] == g[i][j]
    {
      for x := 0 to a.Length1
        invariant forall i, j :: 0 <= i < y && 0 <= j < a.Length1 ==> a[i, j] == g[i][j]
        invariant forall j :: 0 <= j < x ==> a[y, j] == g[y][j]
      {
        a[y, x] := g[y][x];
      }
    }
  }

  /** `a[mask] = v` (with `selected`) or `a[~mask] = v` (without): the pixels
      whose mask value equals `selected` take `v`, the others keep theirs. */
  method FillWhere(a: array2<real>, m: seq<seq<bool>>, selected: bool, v: real)
    requires a.Length0 == |m| && forall y :: 0 <= y < |m| ==> |m[y]| == a.Length1
    modifies a
    ensures forall y, x :: 0 <= y < a.Length0 && 0 <= x < a.Length1 ==>
              a[y, x] == if m[y][x] == selected then v else old(a[y, x])
  {
    for y := 0 to a.Length0
      invariant forall i, j :: 0 <= i < y && 0 <= j < a.Length1 ==>
                  a[i, j] == if m[i][j] == selected then v else old(a[i, j])
      invariant forall i, j :: y <= i < a.Length0 && 0 <= j < a.Length1 ==> a[i, j] == old(a[i, j])
    {
      for x := 0 to a.Length1
        invariant forall i, j :: 0 <= i < y && 0 <= j < a.Length1 ==>
                    a[i, j] == if m[i][j] == selected then v else old(a[i, j])
        invariant forall j :: 0 <= j < x ==> a[y, j] == if m[y][j] == selected then v else old(a[y, j])
        invariant forall i, j :: (y < i < a.Length0 && 0 <= j < a.Length1) || (i == y && x <= j < a.Length1) ==>
                    a[i, j] == old(a[i, j])
      {
        if m[y][x] == selected {
          a[y, x] := v;
        }
      }
    }
  }

  /** The image an array holds. */
  function ToGrid(a: array2<real>): (g: Grid)
    reads a
    ensures |g| == a.Length0 && forall y :: 0 <= y < |g| ==> |g[y]| == a.Length1
    ensures forall y, x :: 0 <= y < a.Length0 && 0 <= x < a.Length1 ==> g[y][x] == a[y, x]
  {
    seq(a.Length0, y requires 0 <= y < a.Length0 reads a =>
      seq(a.Length1, x requires 0 <= x < a.Length1 reads a => a[y, x]))
  }

  /** `flatImg = img.copy(); flatImg[mask] = flux; flatImg[~mask] = bckg`:
      the flat image, built in place in a copy of the image. */
  method BuildFlat(img: Grid, m: seq<seq<bool>>, flux: real, bckg: real) returns (g: Grid)
    requires SameShape(m, img)
    ensures g == Flat(m, flux, bckg)
  {
    var flat := new real[|img|, Width(img)];
    CopyInto(flat, img);
    FillWhere(flat, m, true, flux);
    FillWhere(flat, m, false, bckg);
    g := ToGrid(flat);
    var expected := Flat(m, flux, bckg);
    forall y | 0 <= y < |img| ensures g[y] == expected[y] {
      assert |g[y]| == |expected[y]|;
    }
  }

  class Pupil {
    const file: Option<string>
    const data: Option<Grid>
    const header: Header
    /** `_fluxTreshold` and `_pupLocation`: none until a setter assigns them. */
    var fluxOverride: Option<real>
    var locOverride: Option<Region>

    /** `M6Pupill(file, data, header)`. With a file, its image and header
        (as read) are used and the given data is ignored. */
    constructor (file: Option<FitsRead>, data: Option<Grid>, header: Option<map<string, real>>)
      ensures this.file == (if file.Some? then Some(file.value.path) else None)
      ensures this.data == (if file.Some? then Some(file.value.data) else data)
      ensures this.header == InitHeader(header, if file.Some? then Some(file.value.header) else None)
      ensures fluxOverride == None && locOverride == None
      ensures file.None? && header.None? ==> At() == 0.0 && Az() == -999.99 && Derot() == -999.99
    {
      if file.Some? {
        this.data := Some(file.value.data);
        this.file := Some(file.value.path);
        this.header := InitHeader(header, Some(file.value.header));
      } else {
        this.data := data;
        this.file := None;
        this.header := InitHeader(header, None);
      }
      fluxOverride := None;
      locOverride := None;
    }

    /** The `at`, `az` and `derot` properties: never a `KeyError`, since
        every header holds these keys. */
    function At(): (v: real)
      ensures "at" in header && v == header["at"]
    {
      header["at"]
    }

    function Az(): (v: real)
      ensures "az" in header && v == header["az"]
    {
      header["az"]
    }

    function Derot(): (v: real)
      ensures "derot" in header && v == header["derot"]
    {
      header["derot"]
    }

    /** The effective threshold: the one assigned through the setter, else
        the lookup entry of the record's `at`, which must exist. */
    function FluxTreshold(lookup: Lookup): (r: Result<real>)
      reads this
      ensures fluxOverride.Some? ==> r == Ok(fluxOverride.value)
      ensures fluxOverride.None? && At() in lookup ==> r == Ok(lookup[At()].fluxTreshold)
      ensures fluxOverride.None? && At() !in lookup ==> r == Err(ConfigKeyError(At()))
    {
      if fluxOverride.Some? then Ok(fluxOverride.value)
      else if At() in lookup then Ok(lookup[At()].fluxTreshold)
      else Err(ConfigKeyError(At()))
    }

    /** The effective region, resolved the same way. */
    function PupLocation(lookup: Lookup): (r: Result<Region>)
      reads this
      ensures locOverride.Some? ==> r == Ok(locOverride.value)
      ensures locOverride.None? && At() in lookup ==> r == Ok(lookup[At()].pupLocation)
      ensures locOverride.None? && At() !in lookup ==> r == Err(ConfigKeyError(At()))
    {
      if locOverride.Some? then Ok(locOverride.value)
      else if At() in lookup then Ok(lookup[At()].pupLocation)
      else Err(ConfigKeyError(At()))
    }

    /** The `pupLocation` setter (none restores the lookup). */
    method SetPupLocation(loc: Option<Region>)
      modifies this`locOverride
      ensures locOverride == loc
      ensures forall lk: Lookup :: loc.Some? ==> PupLocation(lk) == Ok(loc.value)
      ensures forall lk: Lookup :: FluxTreshold(lk) == old(FluxTreshold(lk))
    {
      locOverride := loc;
    }

    /** The `fluxTreshold` setter (none restores the lookup). */
    method SetFluxTreshold(t: Option<real>)
      modifies this`fluxOverride
      ensures fluxOverride == t
      ensures forall lk: Lookup :: t.Some? ==> FluxTreshold(lk) == Ok(t.value)
      ensures forall lk: Lookup :: PupLocation(lk) == old(PupLocation(lk))
    {
      fluxOverride := t;
    }

    /** `getMask`: fails without data, or when the threshold or the region
        cannot be resolved; otherwise the mask of the data at the effective
        threshold and region. */
    function GetMask(lookup: Lookup): (r: Result<seq<seq<bool>>>)
      reads this
      ensures data.None? ==> r == Err(NoData)
      ensures r.Ok? <==> data.Some? && FluxTreshold(lookup).Ok? && PupLocation(lookup).Ok?
      ensures r.Err? && data.Some? && FluxTreshold(lookup).Err? ==> r.error == FluxTreshold(lookup).error
      ensures r.Err? && data.Some? && FluxTreshold(lookup).Ok? ==> r.error == PupLocation(lookup).error
      ensures r.Ok? ==> r.value == Mask(data.value, FluxTreshold(lookup).value, PupLocation(lookup).value)
    {
      if data.None? then Err(NoData)
      else match FluxTreshold(lookup)
        case Err(e) => Err(e)
        case Ok(t) =>
          match PupLocation(lookup)
          case Err(e) => Err(e)
          case Ok(reg) => Ok(Mask(data.value, t, reg))
    }

    /** The flat image of `synthesize`: with mask `m` at threshold `t`, every
        masked pixel holds the flux (the given one, else the mean of the
        masked pixels) and every other pixel the background (the given one,
        else `0.95 * t`). */
    function FlatImage(lookup: Lookup, bckg: Option<real>, flux: Option<real>): (r: Result<Grid>)
      reads this
      ensures GetMask(lookup).Err? ==> r == Err(GetMask(lookup).error)
      ensures GetMask(lookup).Ok? && flux.None? && Count(GetMask(lookup).value) == 0 ==> r == Err(EmptyMask)
      ensures r.Ok? <==> GetMask(lookup).Ok? && (flux.Some? || Count(GetMask(lookup).value) > 0)
      ensures r.Ok? ==>
        && GetMask(lookup).Ok?
        && var m := GetMask(lookup).value;
           var t := FluxTreshold(lookup).value;
           && SameShape(r.value, data.value)
           && (flux.None? ==> Count(m) > 0)
           && (forall y, x :: 0 <= y < |m| && 0 <= x < |m[y]| && m[y][x] ==>
                 r.value[y][x] == if flux.Some? then flux.value else MaskedMean(data.value, m).value)
           && (forall y, x :: 0 <= y < |m| && 0 <= x < |m[y]| && !m[y][x] ==>
                 r.value[y][x] == if bckg.Some? then bckg.value else t * 0.95)
    {
      match GetMask(lookup)
      case Err(e) => Err(e)
      case Ok(m) =>
        var t := FluxTreshold(lookup).value;
        var b := if bckg.None? then t * 0.95 else bckg.value;
        match FluxDefault(flux, data.value, m)
        case Err(e) => Err(e)
        case Ok(f) => Ok(Flat(m, f, b))
    }

    /** With the default flux and background and a non-negative threshold,
        the flat image is detected again, at the same threshold and region,
        as exactly the source mask. */
    lemma FlatImageRedetected(lookup: Lookup)
      requires FlatImage(lookup, None, None).Ok?
      requires FluxTreshold(lookup).value >= 0.0
      ensures Mask(FlatImage(lookup, None, None).value, FluxTreshold(lookup).value, PupLocation(lookup).value)
              == GetMask(lookup).value
    {
      var t := FluxTreshold(lookup).value;
      var reg := PupLocation(lookup).value;
      var d := data.value;
      MaskedMeanAboveThreshold(d, t, reg);
      FlatRedetected(d, t, reg, MaskedMean(d, Mask(d, t, reg)).value, t * 0.95);
    }

    /** `synthesize` up to the flat image: a copy of the image whose masked
        pixels are set to the flux and whose other pixels are set to the
        background, wrapped in a new record with a copy of the header. */
    method SynthesizeFlat(lookup: Lookup, bckg: Option<real>, flux: Option<real>) returns (r: Result<Pupil>)
      ensures r.Err? <==> FlatImage(lookup, bckg, flux).Err?
      ensures r.Err? ==> r.error == FlatImage(lookup, bckg, flux).error
      ensures r.Ok? ==>
        && fresh(r.value)
        && r.value.data == Some(FlatImage(lookup, bckg, flux).value)
        && r.value.header == header
        && r.value.file.None? && r.value.fluxOverride.None? && r.value.locOverride.None?
    {
      var mask := GetMask(lookup);
      if mask.Err? {
        return Err(mask.error);
      }
      var m := mask.value;
      var t := FluxTreshold(lookup).value;
      var b := if bckg.None? then t * 0.95 else bckg.value;
      var img := data.value;
      var f := FluxDefault(flux, img, m);
      if f.Err? {
        assert FlatImage(lookup, bckg, flux) == Err(f.error);
        return Err(f.error);
      }
      var newData := BuildFlat(img, m, f.value, b);
      assert FlatImage(lookup, bckg, flux) == Ok(newData);
      InitHeaderOfHeader(header);
      var rec := new Pupil(None, Some(newData), Some(header));
      r := Ok(rec);
    }
  }
}
