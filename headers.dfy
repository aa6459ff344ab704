/** The header mapping of a pupil record and how the constructor builds it. */
module Headers {
  import opened Results

  /** The keys every record header carries. */
  predicate HasDefaultKeys(h: map<string, real>) {
    "az" in h && "derot" in h && "at" in h
  }

  /** The defaults the constructor starts from: `az` and `derot` at the
      "unset" sentinel -999.99 and `at` at 0. */
  function Defaults(): (d: map<string, real>)
    ensures HasDefaultKeys(d)
    ensures d["az"] == -999.99 && d["derot"] == -999.99 && d["at"] == 0.0
    ensures d.Keys == {"az", "derot", "at"}
  {
    map["az" := -999.99, "derot" := -999.99, "at" := 0.0]
  }

  /** A header as every record holds it. */
  type Header = h: map<string, real> | HasDefaultKeys(h) witness Defaults()

  /** `dict(base, **over)`: the keys of both, the value of `over` winning. */
  function Merge(base: map<string, real>, over: map<string, real>): (r: map<string, real>)
    ensures r.Keys == base.Keys + over.Keys
    ensures forall k :: k in over ==> r[k] == over[k]
    ensures forall k :: k in base && k !in over ==> r[k] == base[k]
  {
    base + over
  }

  /** The header of a new record: the caller's header (none stands for `{}`)
      merged with the header read from the file, if any, over the defaults. */
  function InitHeader(caller: Option<map<string, real>>, fits: Option<map<string, real>>): (h: Header)
    ensures var c := if caller.Some? then caller.value else map[];
            var f := if fits.Some? then fits.value else map[];
            && h.Keys == Defaults().Keys + c.Keys + f.Keys
            && (forall k :: k in f ==> h[k] == f[k])
            && (forall k :: k in c && k !in f ==> h[k] == c[k])
            && (forall k :: k in Defaults() && k !in c && k !in f ==> h[k] == Defaults()[k])
  {
    var c := if caller.Some? then caller.value else map[];
    var given := if fits.Some? then Merge(c, fits.value) else c;
    Merge(Defaults(), given)
  }

  /** Building a header again from a complete header returns it unchanged:
      this is what `M6Pupill(data=..., header=dict(self.header))` relies on. */
  lemma InitHeaderOfHeader(h: Header)
    ensures InitHeader(Some(h), None) == h
  {
    var r := InitHeader(Some(h), None);
    assert r.Keys == h.Keys;
    assert forall k :: k in h ==> r[k] == h[k];
  }
}
