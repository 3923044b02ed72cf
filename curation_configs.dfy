/** The threshold presets of the curation step and the keyword thresholds of the
    row filter. Every preset is a record of exactly the eight thresholds the filter
    accepts, so a preset is passed to the filter field for field. */
module CurationConfigs {
  import opened Wrappers

  /** The eight thresholds of the row filter, in its keyword order. */
  datatype FilterConfig = FilterConfig(
    maxLl: int,          // largest allowed maximum line length
    minLen: int,         // smallest allowed file size (characters)
    minMaxLl: int,       // smallest allowed maximum line length
    maxSizeKbs: int,     // largest allowed size in whole KiB
    minAlphanum: real,   // open lower bound of the alphanumeric fraction
    maxAlphanum: real,   // open upper bound of the alphanumeric fraction
    minAveLl: int,       // strict lower bound of the average line length
    minLines: int        // smallest allowed estimated line count
  )

  /** The filter's own keyword defaults. */
  const Defaults := FilterConfig(600, 50, 25, 1000, 0.001, 0.975, 16, 3)

  const Permissive := FilterConfig(1200, 8, 5, 1000, 0.0001, 0.99, 8, 2)
  const Moderate := FilterConfig(600, 50, 25, 750, 0.001, 0.975, 16, 3)
  const Aggressive := FilterConfig(300, 100, 32, 500, 0.0025, 0.97, 20, 5)

  /** Field by field, `loose` admits at least what `strict` admits. */
  predicate NoStricterThan(loose: FilterConfig, strict: FilterConfig) {
    && loose.maxLl >= strict.maxLl
    && loose.minLen <= strict.minLen
    && loose.minMaxLl <= strict.minMaxLl
    && loose.maxSizeKbs >= strict.maxSizeKbs
    && loose.minAlphanum <= strict.minAlphanum
    && loose.maxAlphanum >= strict.maxAlphanum
    && loose.minAveLl <= strict.minAveLl
    && loose.minLines <= strict.minLines
  }

  /** Both windows are non-empty and the average-line-length bound is positive. */
  predicate WellFormed(c: FilterConfig) {
    && c.minMaxLl <= c.maxLl
    && c.minAlphanum < c.maxAlphanum
    && c.minAveLl > 0
  }

  /** Name of a preset as the curation entry point spells it (lower-cased). */
  function Preset(style: string): (r: Option<FilterConfig>)
    ensures r.Some? <==> style in {"permissive", "moderate", "aggressive"}
    ensures r.Some? ==> WellFormed(r.value)
  {
    if style == "permissive" then Some(Permissive)
    else if style == "moderate" then Some(Moderate)
    else if style == "aggressive" then Some(Aggressive)
    else None
  }

  lemma PresetsOrdered()
    ensures NoStricterThan(Permissive, Moderate)
    ensures NoStricterThan(Moderate, Aggressive)
    ensures NoStricterThan(Permissive, Aggressive)
  {
  }

  lemma PresetsWellFormed()
    ensures WellFormed(Permissive) && WellFormed(Moderate) && WellFormed(Aggressive)
    ensures WellFormed(Defaults)
  {
  }

  /** The keyword defaults are the moderate preset except for a larger size cap. */
  lemma DefaultsVersusModerate()
    ensures Defaults == Moderate.(maxSizeKbs := 1000)
    ensures NoStricterThan(Defaults, Moderate)
  {
  }
}
