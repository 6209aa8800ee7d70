/** The `site_config` table (lib/models/site-config.ts): string settings keyed by a
    UNIQUE `config_key`, and the overlay pair built on top of it. */
module SiteConfig {
  import opened Common
  import opened JsNumber

  datatype ConfigEntry = ConfigEntry(value: string, updatedAt: int)

  /** One entry per `config_key`: the UNIQUE constraint is the map's own. */
  type ConfigTable = map<string, ConfigEntry>

  const OverlayImageUrlKey: string := "overlay_image_url"
  const OverlayDurationKey: string := "overlay_duration_ms"
  const DefaultDurationText: string := "1500"

  /** What the player overlay reads; `durationMs == None` is `NaN`. */
  datatype OverlaySettings = OverlaySettings(imageUrl: string, durationMs: Option<int>)

  /** `getConfig`: the stored value, or `null` when the key has no row. */
  function GetConfig(c: ConfigTable, k: string): (r: Option<string>)
    ensures r.None? <==> k !in c
    ensures r.Some? ==> r.value == c[k].value
  {
    if k in c then Some(c[k].value) else None
  }

  /** `setConfig`: an upsert. An existing row gets the new value and a fresh
      `updated_at`; a missing key is inserted (its `updated_at` is the column default). */
  function SetConfig(c: ConfigTable, k: string, v: string, now: int): (r: ConfigTable)
    ensures GetConfig(r, k) == Some(v) && r[k].updatedAt == now
    ensures forall k' :: k' != k ==> GetConfig(r, k') == GetConfig(c, k')
    ensures forall k' :: k' != k && k' in c ==> k' in r && r[k'] == c[k']
    ensures r.Keys == c.Keys + {k}
  {
    if GetConfig(c, k).Some? then c[k := c[k].(value := v, updatedAt := now)]
    else c[k := ConfigEntry(v, now)]
  }

  /** Writing the same value twice is writing it once (at the later time). */
  lemma SetConfigIdempotent(c: ConfigTable, k: string, v: string, t1: int, t2: int)
    ensures SetConfig(SetConfig(c, k, v, t1), k, v, t2) == SetConfig(c, k, v, t2)
  {
  }

  /** `getOverlaySettings`: a missing or empty URL reads as `''`, a missing or empty
      duration reads as 1500, otherwise the stored duration goes through `parseInt`. */
  function GetOverlaySettings(c: ConfigTable): (r: OverlaySettings)
    ensures GetConfig(c, OverlayImageUrlKey).None? ==> r.imageUrl == ""
    ensures GetConfig(c, OverlayImageUrlKey).Some? ==> r.imageUrl == GetConfig(c, OverlayImageUrlKey).value
    ensures !Truthy(GetConfig(c, OverlayDurationKey)) ==> r.durationMs == Some(1500)
    ensures Truthy(GetConfig(c, OverlayDurationKey)) ==> r.durationMs == ParseInt(GetConfig(c, OverlayDurationKey).value)
  {
    DefaultDurationValue();
    OverlaySettings(
      OrElse(GetConfig(c, OverlayImageUrlKey), ""),
      ParseInt(OrElse(GetConfig(c, OverlayDurationKey), DefaultDurationText)))
  }

  /** The default duration text reads as 1500 ms. */
  lemma DefaultDurationValue()
    ensures ParseInt(DefaultDurationText) == Some(1500)
  {
    assert NatToDecimal(1) == "1";
    assert NatToDecimal(15) == "15";
    assert NatToDecimal(150) == "150";
    assert NatToDecimal(1500) == DefaultDurationText;
    DecimalRoundTrip(1500);
  }

  /** `setOverlaySettings`: both keys are upserted, the duration as its decimal
      spelling. Reading the settings back returns exactly what was written, and
      no other setting changes. */
  function SetOverlaySettings(c: ConfigTable, imageUrl: string, durationMs: int, now: int): (r: ConfigTable)
    ensures GetOverlaySettings(r) == OverlaySettings(imageUrl, Some(durationMs))
    ensures GetConfig(r, OverlayDurationKey) == Some(NumberToString(durationMs))
    ensures forall k :: k != OverlayImageUrlKey && k != OverlayDurationKey ==> GetConfig(r, k) == GetConfig(c, k)
    ensures OverlayWellFormed(r)
  {
    var r := SetConfig(SetConfig(c, OverlayImageUrlKey, imageUrl, now), OverlayDurationKey, NumberToString(durationMs), now);
    DecimalRoundTrip(durationMs);
    assert NumberToString(durationMs) != "";
    r
  }

  /** The duration row never exists without the URL row: the seed writes both, and so
      does every later write. */
  ghost predicate OverlayWellFormed(c: ConfigTable) {
    OverlayDurationKey in c ==> OverlayImageUrlKey in c
  }
}
