# Resource manager: a memoising cache of loaded resources

This project models the generic `ResourceManager` of the rust-sdl2
resource-manager example. The manager loads resources such as textures and
fonts on first request. On every later request with an equal key it hands back
a shared handle (`Rc<R>`) on the same resource.

- `Resources.ResourceManager` is a class. It holds the loader (`const loader`),
  the cache (`var cache: map<K, Rc<R>>`) and a ghost log `calls` of the probes
  the loader was called with.
- `Load` looks the probe up. On a hit it returns the stored handle itself. On a
  miss it calls the loader. A success is wrapped in a fresh `Rc` and stored under
  the key converted from the probe. A failure is returned unchanged and nothing
  is stored.
- The work a cache does is abstracted as a `Trace`: the set of stored keys and
  the sequence of loader calls. `Step` is one load and `Serve` a sequence of
  loads. `Load` is proved to move its abstract state by `Step`. The load-once,
  no-negative-caching and key-conversion properties are lemmas about `Serve`.
- The map is probed with a borrowed view of a key (`K: Borrow<D>`). A view
  compares equal exactly when the owned keys it borrows from do. So the model
  keys the map by the view type. The conversion `details.into()` stays an
  explicit parameter `into` of `Load`. Load-once holds when `into(d) == d`.
  `Fonts.From` is shown to satisfy this. `Resources.UnfaithfulKeyNeverHits`
  shows what breaks without it.
- The `ResourceLoader` trait (examples/resource-manager.rs:134-137) is the
  type `Resources.Loader`, a function from probe to `Result`. A Dafny function
  gives the same answer every time it is applied to the same probe, so the model
  assumes a loader that is pure from the cache's point of view.
- `Fonts` models the font key. The struct `FontDetails`
  (examples/resource-manager.rs:140-144) is a datatype with a `path` and a `u16` size.
  The module also covers its derived equality and its `From<&FontDetails>`
  conversion (examples/resource-manager.rs:146-153).

## Model

| member | source | states |
|---|---|---|
| `Resources.Rc.constructor` | examples/resource-manager.rs:107 | `Rc::new`: a new shared handle that holds the loaded resource |
| `Resources.Step` | examples/resource-manager.rs:103-110 | One load never removes a key and can add only the converted key. A hit does no loader call and changes nothing. A miss makes exactly one loader call. A failed load stores nothing. A successful miss stores exactly the converted key. |
| `Resources.Serve` | examples/resource-manager.rs:51-53 | Loads served in order: the stored key set only grows, the call log only extends, and there is at most one loader call per request |
| `Resources.StoredKeys` | examples/resource-manager.rs:103-108 | With a faithful conversion, the stored keys are the initial keys plus exactly the requested keys whose load succeeds. Failures are never cached. |
| `Resources.LoadsOnce` | examples/resource-manager.rs:103-108 | Load-once over any request sequence (faithful conversion). A key whose load succeeds is loaded exactly once if it was requested and not yet stored, and never otherwise. |
| `Resources.RetriesFailures` | examples/resource-manager.rs:107-108 | No negative caching. Each request for an unstored key whose load fails calls the loader again, so the number of loader calls equals the number of requests. |
| `Resources.UnfaithfulKeyNeverHits` | examples/resource-manager.rs:104-108 | If the conversion returns a key other than the probe, the stored entry never answers that probe. Each of n requests calls the loader. |
| `Resources.ResourceManager.constructor` | examples/resource-manager.rs:89-94 | `new`: the given loader and an empty cache. No loader calls yet. The cache invariants hold. |
| `Resources.ResourceManager.Load` | examples/resource-manager.rs:98-112 | The abstract state moves by `Step`. A hit returns the stored handle itself and leaves the cache unchanged. A failure returns the loader's error and leaves the cache unchanged. A success returns a fresh handle holding the loader's value, and the new cache is the old one with only `into(d)` set to that handle. Distinct keys keep distinct handles. When `into(d) == d`, it preserves `Coherent` (every stored handle holds its key's loaded value), and if `Coherent` held before, the result agrees with the loader. |
| `Resources.ResourceManager.LoadEveryFrame` | examples/resource-manager.rs:43-53 | Repeated per-frame loads that stop at the first error (`unwrap`). All frames together do the work of one `Step`. Every frame gets the same handle, namely the one stored for the key. Fewer frames than asked happen only when the first load fails. On a miss, the handle is a fresh one holding the loader's value. The cache afterwards is the old one with at most the entry for the requested key set to the returned handle, so entries for other keys keep their handles. |
| `Fonts.Equal` | examples/resource-manager.rs:140-144 | The derived equality on `FontDetails` holds exactly when the two values are equal |
| `Fonts.From` | examples/resource-manager.rs:146-153 | The owned key copied from a probe equals the probe |
| `Fonts.FromFaithful` | examples/resource-manager.rs:146-153 | The font conversion gives back every probe, so it meets the load-once law |
| `Fonts.FontsLoadOnce` | examples/resource-manager.rs:53 | The font manager calls the loader at most once per font that loads, over any sequence of requests |
| `Fonts.StoredFontFound` | examples/resource-manager.rs:108 | A font stored under its converted key is found by a later probe with the same details, and that probe gets the stored handle |

## Left out

- `main`'s argument parsing, SDL and TTF initialisation, window and canvas creation, event polling, rendering and the per-frame font texture (lines 16-71). All of this is I/O over a foreign library. Only its repeated `load(...).unwrap()` is modelled, as `LoadEveryFrame`.
- LoadEveryFrame: covers one key on one manager. The source loads a texture and a font from two managers each frame (lines 52-53), and the managers are independent. In the source, `unwrap` on an error aborts the whole program. The model instead returns early with the handles obtained so far.
- The concrete loaders `TextureCreator::load` and `Sdl2TtfContext::load` (lines 116-131). They call SDL code that is not part of this model and print a line. The loader is an arbitrary function from probe to `Result`, and its calls are recorded in the ghost log `calls`.
- A loader whose answer changes between calls is not modelled. An example is one that fails and then succeeds once the file appears. The loader is a function of its probe, so `RetriesFailures` and the invariant `Coherent` both read a failing key as failing on every call.
- `Rc` reference counts, dropping and the lifetime `'l` are not modelled. A handle is an object, and "same resource" means the same reference. Keeping a resource alive after callers drop their handles is therefore not stated.
- Hashing (the derived `Hash` of `FontDetails`, `HashMap` internals) is not modelled. The cache is a Dafny `map`, which finds a key by equality.
- `Borrow<D>`, `?Sized` and the owned-versus-borrowed distinction are not modelled. Keys and probes share one type. The `String`/`&str` conversion used by the texture manager belongs to the standard library and is not part of this model.
- The `u16` size is a bounded newtype. No arithmetic is done on it.
- Concurrent use is not modelled. The source uses the cache from a single thread.
