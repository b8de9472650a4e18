/**
  The key of the font manager: the details needed to load a font, and the
  conversion from a borrowed probe to the owned key that gets stored.
*/
module Fonts {
  import opened Resources

  /** An unsigned 16-bit integer. */
  newtype u16 = x: int | 0 <= x < 0x1_0000

  /** A font file path and a point size. */
  datatype FontDetails = FontDetails(path: string, size: u16)

  /** The derived equality: both fields equal. It coincides with value equality. */
  function Equal(a: FontDetails, b: FontDetails): (eq: bool)
    ensures eq <==> a == b
  {
    a.path == b.path && a.size == b.size
  }

  /** The owned key made from a borrowed probe: a field-by-field copy, equal to the probe. */
  function From(details: FontDetails): (owned: FontDetails)
    ensures Equal(owned, details)
  {
    FontDetails(details.path, details.size)
  }

  /** The font key conversion is faithful for any requests. */
  lemma FromFaithful(ds: seq<FontDetails>)
    ensures Faithful(From, ds)
  {
  }

  /**
    The font manager loads each font at most once: over any requests, the
    loader is called on a font that loads exactly once if it is requested and
    not already stored, and never otherwise.
  */
  lemma {:induction false} FontsLoadOnce<R>(t: Trace<FontDetails>, loader: Loader<FontDetails, R>, ds: seq<FontDetails>, k: FontDetails)
    requires loader(k).Ok?
    ensures multiset(Serve(t, loader, From, ds).calls)[k]
         == multiset(t.calls)[k] + (if k in t.keys || k !in ds then 0 else 1)
  {
    FromFaithful(ds);
    LoadsOnce(t, loader, From, ds, k);
  }

  /** A font stored under its converted key is found again by the same probe. */
  lemma StoredFontFound<R>(cache: map<FontDetails, Rc<R>>, d: FontDetails, h: Rc<R>)
    ensures d in cache[From(d) := h] && cache[From(d) := h][d] == h
  {
  }
}
