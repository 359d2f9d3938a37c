/**
  The accent-palette store: one of eight named palettes, persisted in local
  storage except for the default, indigo, whose choice removes the key.
 */
module PaletteStore {
  import opened Wrappers

  datatype PaletteInfo = PaletteInfo(id: string, name: string, light: string, dark: string)

  const Palettes: seq<PaletteInfo> := [
    PaletteInfo("indigo", "Indigo", "#6366f1", "#818cf8"),
    PaletteInfo("blue", "Blue", "#3b82f6", "#60a5fa"),
    PaletteInfo("teal", "Teal", "#14b8a6", "#2dd4bf"),
    PaletteInfo("green", "Green", "#22c55e", "#4ade80"),
    PaletteInfo("orange", "Orange", "#f97316", "#fb923c"),
    PaletteInfo("red", "Red", "#ef4444", "#f87171"),
    PaletteInfo("pink", "Pink", "#ec4899", "#f472b6"),
    PaletteInfo("grey", "Grey", "#6b7280", "#9ca3af")
  ]

  const StorageKey := "palette"
  const DefaultPalette := "indigo"

  /** `PALETTES.some((p) => p.id === s)`. */
  predicate IsPaletteId(s: string) {
    exists i :: 0 <= i < |Palettes| && Palettes[i].id == s
  }

  /** `loadPalette`: the stored id when it names a palette, else indigo; indigo without a window. */
  function LoadPalette(hasWindow: bool, stored: Option<string>): (r: string)
    ensures IsPaletteId(r)
    ensures !hasWindow || stored.None? || !IsPaletteId(stored.value) ==> r == DefaultPalette
    ensures hasWindow && stored.Some? && IsPaletteId(stored.value) ==> r == stored.value
  {
    assert Palettes[0].id == DefaultPalette;
    if hasWindow && stored.Some? && stored.value != "" && IsPaletteId(stored.value) then stored.value
    else DefaultPalette
  }

  /** What the effect leaves in storage: no key for indigo, the id otherwise. */
  function Persisted(storage: map<string, string>, palette: string): (r: map<string, string>)
    ensures palette == DefaultPalette ==> StorageKey !in r
    ensures palette != DefaultPalette ==> StorageKey in r && r[StorageKey] == palette
    ensures forall k :: k != StorageKey ==> (k in r <==> k in storage) && (k in r ==> r[k] == storage[k])
  {
    if palette == DefaultPalette then storage - {StorageKey} else storage[StorageKey := palette]
  }

  /** A palette, once persisted, is what the next load reads back. */
  lemma PersistRoundTrip(storage: map<string, string>, palette: string)
    requires IsPaletteId(palette)
    ensures var s := Persisted(storage, palette);
      LoadPalette(true, if StorageKey in s then Some(s[StorageKey]) else None) == palette
  {
  }

  class Palette {
    var palette: string
    var storage: map<string, string>
    const hasWindow: bool

    ghost predicate Valid()
      reads this
    {
      IsPaletteId(palette)
    }

    /** `createPaletteStore()`, then the first run of the effect (in a browser). */
    constructor (hasWindow: bool, stored: map<string, string>)
      ensures Valid() && this.hasWindow == hasWindow
      ensures palette == LoadPalette(hasWindow, if StorageKey in stored then Some(stored[StorageKey]) else None)
      ensures storage == if hasWindow then Persisted(stored, palette) else stored
    {
      this.hasWindow := hasWindow;
      var p := LoadPalette(hasWindow, if StorageKey in stored then Some(stored[StorageKey]) else None);
      palette := p;
      storage := if hasWindow then Persisted(stored, p) else stored;
    }

    /** `setPalette(id)`, then the effect. */
    method SetPalette(id: string)
      requires IsPaletteId(id)
      modifies this`palette, this`storage
      ensures Valid() && palette == id
      ensures storage == if hasWindow then Persisted(old(storage), id) else old(storage)
    {
      palette := id;
      if hasWindow {
        storage := Persisted(storage, id);
      }
    }
  }
}
