/** `RotationConfig`: the rotation policy value handed to every logger. */
module Config {

  type UInt8 = x: int | 0 <= x < 0x100
  type UInt64 = x: int | 0 <= x < 0x1_0000_0000_0000_0000

  datatype RotationType = Filesize | Daily | DailyInSubfolder

  /** How the size logger names an archive: `.1`, `.2`, ... or
      `.<timestamp>_<uuid>`. */
  datatype SuffixExtension = Numbering | DateUuid

  /** All four fields are `var` in the source, so a caller may replace any of
      them after construction (`config.(rotationType := Daily)`). */
  datatype RotationConfig = RotationConfig(
    suffixExtension: SuffixExtension,
    rotationType: RotationType,
    maxFileSize: UInt64,
    maxArchives: UInt8)

  const DefaultMaxFileSize: UInt64 := 10 * 1024 * 1024
  const DefaultMaxArchives: UInt8 := 5

  /** `RotationConfig.init`: stores the suffix style and both bounds as
      given, and sets the rotation type to `.filesize` whatever is passed. */
  function Init(rotationType: RotationType := Filesize, suffixExtension: SuffixExtension := Numbering,
                maxFileSize: UInt64 := DefaultMaxFileSize, maxArchives: UInt8 := DefaultMaxArchives): (c: RotationConfig)
    ensures c.suffixExtension == suffixExtension
    ensures c.maxFileSize == maxFileSize && c.maxArchives == maxArchives
    ensures c.rotationType == Filesize
  {
    RotationConfig(suffixExtension, Filesize, maxFileSize, maxArchives)
  }

  /** The defaults: numbering suffixes, 10 MiB per file, five archives. */
  lemma InitDefaults()
    ensures Init() == RotationConfig(Numbering, Filesize, 10485760, 5)
  {
  }

  /** The argument `rotationType` has no effect on the initialised value. */
  lemma InitIgnoresRotationType(a: RotationType, b: RotationType, s: SuffixExtension, size: UInt64, count: UInt8)
    ensures Init(a, s, size, count) == Init(b, s, size, count)
  {
  }
}
