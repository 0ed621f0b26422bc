/** `setDefaults`: the settings object after the defaults have been filled in. */
module Defaults {
  import opened Images

  /** The values a settings property can hold, as far as the compositor distinguishes them. */
  datatype Value = Undefined | Null | Number(n: int) | Ops(ops: seq<ComposeOp>) | Callback | Element

  /** `CanvasWorker.defaultSettings`. */
  const DefaultSettings: map<string, Value> := map[
    "drawFinished" := Callback,
    "tileWidth" := Number(256),
    "tileHeight" := Number(256),
    "width" := Number(0),
    "height" := Number(0),
    "compose" := Null,
    "element" := Null
  ]

  /**
   * Every non-empty property name of `defs` is set on `settings`: a value the caller gave (anything
   * but undefined) is kept, a missing or undefined one takes the default. Other properties of
   * `settings` are left as they are.
   */
  function SetDefaults(settings: map<string, Value>, defs: map<string, Value>): (r: map<string, Value>)
    ensures r.Keys == settings.Keys + (defs.Keys - {""})
    ensures forall p :: p in settings && settings[p] != Undefined ==> r[p] == settings[p]
    ensures forall p :: p in defs && p != "" && (p !in settings || settings[p] == Undefined) ==> r[p] == defs[p]
    ensures forall p :: p in settings && (p !in defs || p == "") ==> r[p] == settings[p]
  {
    map p | p in settings.Keys + (defs.Keys - {""}) ::
      if p in defs && p != "" && (p !in settings || settings[p] == Undefined) then defs[p] else settings[p]
  }

  /** Filling in the defaults a second time changes nothing. */
  lemma SetDefaultsIdempotent(settings: map<string, Value>, defs: map<string, Value>)
    ensures SetDefaults(SetDefaults(settings, defs), defs) == SetDefaults(settings, defs)
  {
    var once := SetDefaults(settings, defs);
    var twice := SetDefaults(once, defs);
    assert twice.Keys == once.Keys;
    forall p | p in once ensures twice[p] == once[p] {
      if p in defs && p != "" && once[p] == Undefined {
        assert defs[p] == Undefined;
      }
    }
  }

  /** Without caller values, the tiles are 256 by 256 pixels and the area is empty. */
  lemma DefaultGeometry(settings: map<string, Value>)
    requires "tileWidth" !in settings && "tileHeight" !in settings && "width" !in settings && "height" !in settings
    ensures var r := SetDefaults(settings, DefaultSettings);
      r["tileWidth"] == Number(256) && r["tileHeight"] == Number(256) &&
      r["width"] == Number(0) && r["height"] == Number(0)
  {
  }
}
