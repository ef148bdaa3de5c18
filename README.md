# Globalization Pipeline tools: resource filters and download rules in Dafny

This project models the string and collection logic at the heart of the
Globalization Pipeline Java tools, and proves properties of it:

- the resource bundle data model: `ResourceString` and its ordering,
  `LanguageBundleBuilder` with automatic sequence numbers, `LanguageBundle`
  with its sorted copy, the key/value maps of `Utils`, and byte-order-mark
  detection (`Bom`);
- the Java `.properties` filter: key and value escaping and unescaping,
  `\uXXXX` handling, continuation lines, `PropDef.parseLine`, apostrophe
  doubling and undoubling for MessageFormat, `parse`, `PropDef.print`,
  `write`, and the line-preserving `merge`;
- the AMD i18n JavaScript filter: the key/value visitor over a small
  syntax tree, `+` concatenation of string fragments, the `root` object
  rule, duplicate keys, the indentation helpers, the `formatEntry` guard
  and the line-oriented merge;
- the JSON filter's JSONPath-like keys: `encodeResourceKey`, `findTokens`,
  `splitKeyPieces` and `addBundleStrings`;
- the PO/POT filter: quote extraction, `formatMessage` wrapping, `parse`
  and `merge`;
- the multi-bundle CSV filter: grouping by module, write order and merge
  substitution;
- the CLI `merge-translations` entry classification with its approximate
  text matcher;
- the Ant download task: language ID mapping, output file naming, the
  overwrite rule, the reviewed-only and fallback value rules, bundle IDs
  from paths, and target-language defaults.

Java strings are sequences of UTF-16 code units (`JavaText.JString`), and
Java exceptions are `Err` values of a `Result`. Several source rules are
modelled twice under a `corrected` flag: `false` is the code as written,
`true` the behaviour its authors evidently intended (see "## Findings").
Loops of the source are methods proved equal to a specification
function; the properties are lemmas about those functions. Readers,
writers, clocks, service calls and foreign libraries (ICU, Rhino, Gson,
commons-csv, `BreakIterator`) are parameters of the model.

## Model

| member | source | states |
|---|---|---|
| Boms.Check | gp-res-filter/src/main/java/com/ibm/g11n/pipeline/resfilter/Bom.java:47-59 | true exactly when the bytes are present and start with the mark's bytes |
| Boms.FirstMatch | gp-res-filter/src/main/java/com/ibm/g11n/pipeline/resfilter/impl/BomInputStream.java:44-50 | the mark found is one of the candidates and prefixes the input; none found means no candidate prefixes it |
| Boms.DetectBom | gp-res-filter/src/main/java/com/ibm/g11n/pipeline/resfilter/impl/BomInputStream.java:40-56 | the detection loop over the four head bytes picks the first mark of `BOMS` that matches |
| Boms.Utf32LittleDetectedAsUtf16 | gp-res-filter/src/main/java/com/ibm/g11n/pipeline/resfilter/Bom.java:21-29 | a UTF-32 little-endian mark is detected as UTF-16 little-endian, because that mark is tried first and is its prefix |
| Boms.MarksDetectedAsThemselves | gp-res-filter/src/main/java/com/ibm/g11n/pipeline/resfilter/Bom.java:19-29 | every mark but UTF-32 little-endian is detected as itself |
| UtilsMaps.MapByKeyKeys | gp-res-filter/src/main/java/com/ibm/g11n/pipeline/resfilter/impl/Utils.java:41-55 | the map's keys are exactly the keys of the strings |
| UtilsMaps.MapByKeyLastWins | gp-res-filter/src/main/java/com/ibm/g11n/pipeline/resfilter/impl/Utils.java:41-55 | a key maps to the value of its last string (later puts overwrite) |
| UtilsMaps.MapByKeyValues | gp-res-filter/src/main/java/com/ibm/g11n/pipeline/resfilter/impl/Utils.java:41-55 | every mapped value is the value of some string with that key |
| UtilsMaps.PutAll | gp-res-filter/src/main/java/com/ibm/g11n/pipeline/resfilter/impl/Utils.java:43-45 | the put loop builds the key-to-value map, last occurrence winning |
| UtilsMaps.CreateKeyValueMap | gp-res-filter/src/main/java/com/ibm/g11n/pipeline/resfilter/impl/Utils.java:41-47 | `createKeyValueMap` maps each key to its string's value |
| UtilsMaps.CreateResourceStringMap | gp-res-filter/src/main/java/com/ibm/g11n/pipeline/resfilter/impl/Utils.java:49-55 | `createResourceStringMap` maps each key to its string |
| ResourceStrings.WithKeyValue | gp-res-filter/src/main/java/com/ibm/g11n/pipeline/resfilter/ResourceString.java:36-38 | the two-argument constructor keeps key and value and sets an unknown (negative) sequence number |
| ResourceStrings.EqualsIgnoresAttachments | gp-res-filter/src/main/java/com/ibm/g11n/pipeline/resfilter/ResourceString.java:56-62 | equality compares key, value and sequence number only, so notes and source value never matter |
| ResourceStrings.CompareStringsAntisymmetric | gp-res-filter/src/main/java/com/ibm/g11n/pipeline/resfilter/ResourceString.java:131 | `String.compareTo` over code units is antisymmetric |
| ResourceStrings.CompareStringsZero | gp-res-filter/src/main/java/com/ibm/g11n/pipeline/resfilter/ResourceString.java:131 | `compareTo` is zero exactly for equal strings |
| ResourceStrings.CompareStringsTransitive | gp-res-filter/src/main/java/com/ibm/g11n/pipeline/resfilter/ResourceString.java:131 | `compareTo` is transitive |
| ResourceStrings.KnownAscending | gp-res-filter/src/main/java/com/ibm/g11n/pipeline/resfilter/ResourceString.java:101-107 | two known sequence numbers order by number, in both readings of the comparator |
| ResourceStrings.UnknownPlacement | gp-res-filter/src/main/java/com/ibm/g11n/pipeline/resfilter/ResourceString.java:93-100 | an unknown sequence number sorts before a known one exactly when unknown-first is set, in both argument orders |
| ResourceStrings.TiesByKey | gp-res-filter/src/main/java/com/ibm/g11n/pipeline/resfilter/ResourceString.java:110-131 | equal or both-unknown sequence numbers fall back to the key order |
| ResourceStrings.AsWrittenDiffersOnlyAtZero | gp-res-filter/src/main/java/com/ibm/g11n/pipeline/resfilter/ResourceString.java:93-97 | the comparator as written agrees with the corrected one except for an unknown number against 0 |
| ResourceStrings.AsWrittenNotAntisymmetric | gp-res-filter/src/main/java/com/ibm/g11n/pipeline/resfilter/ResourceString.java:93-97 | as written, an unknown number and 0 with a smaller first key each compare below the other |
| ResourceStrings.CompareAntisymmetric | gp-res-filter/src/main/java/com/ibm/g11n/pipeline/resfilter/ResourceString.java:89-132 | the corrected comparator is antisymmetric |
| ResourceStrings.CompareTransitive | gp-res-filter/src/main/java/com/ibm/g11n/pipeline/resfilter/ResourceString.java:89-132 | the corrected comparator is transitive |
| ResourceStrings.CompareZero | gp-res-filter/src/main/java/com/ibm/g11n/pipeline/resfilter/ResourceString.java:89-132 | the corrected comparator is zero exactly for the same key with the same (or both unknown) sequence numbers |
| LanguageBundles.LanguageBundle.constructor | gp-res-filter/src/main/java/com/ibm/g11n/pipeline/resfilter/LanguageBundle.java:38-39 | a new bundle has no strings, no notes and no embedded language code |
| LanguageBundles.LanguageBundle.SetNotes | gp-res-filter/src/main/java/com/ibm/g11n/pipeline/resfilter/LanguageBundle.java:45-47 | the notes become the given list; nothing else changes |
| LanguageBundles.LanguageBundle.GetNotes | gp-res-filter/src/main/java/com/ibm/g11n/pipeline/resfilter/LanguageBundle.java:54-59 | the notes, or the empty list when none were set |
| LanguageBundles.LanguageBundle.SetResourceStrings | gp-res-filter/src/main/java/com/ibm/g11n/pipeline/resfilter/LanguageBundle.java:65-67 | the strings become the given ones; nothing else changes |
| LanguageBundles.LanguageBundle.GetResourceStrings | gp-res-filter/src/main/java/com/ibm/g11n/pipeline/resfilter/LanguageBundle.java:73-75 | the strings, or a NullPointerException when none were set |
| LanguageBundles.LanguageBundle.SetEmbeddedLanguageCode | gp-res-filter/src/main/java/com/ibm/g11n/pipeline/resfilter/LanguageBundle.java:81-83 | the embedded code becomes the given one (possibly null); nothing else changes |
| LanguageBundles.LanguageBundle.GetEmbeddedLanguageCode | gp-res-filter/src/main/java/com/ibm/g11n/pipeline/resfilter/LanguageBundle.java:90-92 | the embedded code as set |
| LanguageBundles.LanguageBundle.GetSortedResourceStrings | gp-res-filter/src/main/java/com/ibm/g11n/pipeline/resfilter/LanguageBundle.java:99-103 | a sorted permutation of the strings under the comparator with unknown numbers last; a NullPointerException when none were set |
| LanguageBundles.InsertSortedSorted | gp-res-filter/src/main/java/com/ibm/g11n/pipeline/resfilter/LanguageBundle.java:101 | inserting into a sorted list keeps it sorted and adds exactly the one string |
| LanguageBundles.SortedCopySorted | gp-res-filter/src/main/java/com/ibm/g11n/pipeline/resfilter/LanguageBundle.java:100-101 | the sorted copy is sorted and a permutation of the input |
| LanguageBundles.Insert | gp-res-filter/src/main/java/com/ibm/g11n/pipeline/resfilter/LanguageBundle.java:101 | the insertion loop computes the specification's insertion |
| LanguageBundles.SortResourceStrings | gp-res-filter/src/main/java/com/ibm/g11n/pipeline/resfilter/LanguageBundle.java:100-102 | the sorting loop yields the sorted copy, sorted and a permutation |
| LanguageBundleBuilders.NumberedFromOneIsSorted | gp-res-filter/src/main/java/com/ibm/g11n/pipeline/resfilter/LanguageBundleBuilder.java:41-47 | strings numbered 1, 2, 3, ... by auto-numbering come out of the sort in their order |
| LanguageBundleBuilders.LanguageBundleBuilder.constructor | gp-res-filter/src/main/java/com/ibm/g11n/pipeline/resfilter/LanguageBundleBuilder.java:26-35 | empty strings and notes, no embedded code, the counter at 1 |
| LanguageBundleBuilders.LanguageBundleBuilder.AddBuilt | gp-res-filter/src/main/java/com/ibm/g11n/pipeline/resfilter/LanguageBundleBuilder.java:41-47 | appends the built string, numbered by the counter (which then advances) in auto mode, as given otherwise |
| LanguageBundleBuilders.LanguageBundleBuilder.AddKeyValue | gp-res-filter/src/main/java/com/ibm/g11n/pipeline/resfilter/LanguageBundleBuilder.java:37-39 | appends a key and value with the next number in auto mode, unknown number otherwise |
| LanguageBundleBuilders.LanguageBundleBuilder.AddNumbered | gp-res-filter/src/main/java/com/ibm/g11n/pipeline/resfilter/LanguageBundleBuilder.java:70-76 | IllegalStateException and no change in auto mode, else appends the string as is |
| LanguageBundleBuilders.LanguageBundleBuilder.AddWithNumber | gp-res-filter/src/main/java/com/ibm/g11n/pipeline/resfilter/LanguageBundleBuilder.java:49-54 | IllegalStateException in auto mode, else appends the string with the given number |
| LanguageBundleBuilders.LanguageBundleBuilder.AddWithNotes | gp-res-filter/src/main/java/com/ibm/g11n/pipeline/resfilter/LanguageBundleBuilder.java:56-68 | IllegalStateException in auto mode, else appends the string with number, notes and source value |
| LanguageBundleBuilders.LanguageBundleBuilder.AddNote | gp-res-filter/src/main/java/com/ibm/g11n/pipeline/resfilter/LanguageBundleBuilder.java:78-81 | appends one bundle note; strings unchanged |
| LanguageBundleBuilders.LanguageBundleBuilder.AddNotes | gp-res-filter/src/main/java/com/ibm/g11n/pipeline/resfilter/LanguageBundleBuilder.java:83-86 | appends the notes in order; strings unchanged |
| LanguageBundleBuilders.LanguageBundleBuilder.EmbeddedLanguageCode | gp-res-filter/src/main/java/com/ibm/g11n/pipeline/resfilter/LanguageBundleBuilder.java:88-91 | sets the embedded code; strings and notes unchanged |
| LanguageBundleBuilders.LanguageBundleBuilder.Build | gp-res-filter/src/main/java/com/ibm/g11n/pipeline/resfilter/LanguageBundleBuilder.java:93-100 | a fresh bundle holding copies of the strings, the notes and the embedded code |
| ApproximateMatching.RunLength | gp-cli/src/main/java/com/ibm/g11n/pipeline/tools/cli/ApproximateMatcher.java:35 | the length of the leading run of units that are neither letters nor numbers |
| ApproximateMatching.CollapseRunsShape | gp-cli/src/main/java/com/ibm/g11n/pipeline/tools/cli/ApproximateMatcher.java:35 | after `replaceAll`, every unit is a letter, number or space, no two spaces are adjacent, and the letters and numbers are those of the input, in order |
| ApproximateMatching.CollapseRunsIdempotent | gp-cli/src/main/java/com/ibm/g11n/pipeline/tools/cli/ApproximateMatcher.java:35 | collapsing the runs twice changes nothing more |
| ApproximateMatching.ProcessTextNormal | gp-cli/src/main/java/com/ibm/g11n/pipeline/tools/cli/ApproximateMatcher.java:29-36 | the processed text starts and ends with a letter or number, has single spaces between words, and keeps the case-folded text's letters and numbers in order |
| ApproximateMatching.TrimShape | gp-cli/src/main/java/com/ibm/g11n/pipeline/tools/cli/ApproximateMatcher.java:35 | `trim` keeps the shape and the letters and numbers and leaves letters or numbers at both ends |
| ApproximateMatching.TrailingSeparatorsMatch | gp-cli/src/main/java/com/ibm/g11n/pipeline/tools/cli/ApproximateMatcher.java:38-43 | texts whose case-folded forms differ only by trailing punctuation match both ways |
| ApproximateMatching.MatchesEquivalence | gp-cli/src/main/java/com/ibm/g11n/pipeline/tools/cli/ApproximateMatcher.java:38-48 | `matches` is reflexive, symmetric and transitive |
| PropertiesEscape.LeadingSpaces | gp-res-filter/src/main/java/com/ibm/g11n/pipeline/resfilter/impl/JavaPropertiesResource.java:1019-1027 | the count of leading properties white space (space, tab, form feed), stopping at the first other unit |
| PropertiesEscape.GetLeadingSpacesLength | gp-res-filter/src/main/java/com/ibm/g11n/pipeline/resfilter/impl/JavaPropertiesResource.java:1019-1027 | the scanning loop returns exactly that count |
| PropertiesEscape.StripLeadingSpaces | gp-res-filter/src/main/java/com/ibm/g11n/pipeline/resfilter/impl/JavaPropertiesResource.java:1029-1031 | drops exactly the leading white space: what is removed is white space and what remains does not start with it |
| PropertiesEscape.EscapedChar | gp-res-filter/src/main/java/com/ibm/g11n/pipeline/resfilter/impl/JavaPropertiesResource.java:500-556 | one unit escapes to between one and six units |
| PropertiesEscape.UnicodeEscape | gp-res-filter/src/main/java/com/ibm/g11n/pipeline/resfilter/impl/JavaPropertiesResource.java:578-581 | a backslash, `u` and four upper-case hex digits of the unit |
| PropertiesEscape.EscapeLeadingSpaces | gp-res-filter/src/main/java/com/ibm/g11n/pipeline/resfilter/impl/JavaPropertiesResource.java:478-498 | the leading-space loop escapes exactly the leading white space and stops where it ends |
| PropertiesEscape.EscapeRest | gp-res-filter/src/main/java/com/ibm/g11n/pipeline/resfilter/impl/JavaPropertiesResource.java:500-557 | the main loop appends the escaping of every remaining unit |
| PropertiesEscape.Escape | gp-res-filter/src/main/java/com/ibm/g11n/pipeline/resfilter/impl/JavaPropertiesResource.java:474-560 | `escape` computes the specification's escaping for the space mode and encoding |
| PropertiesEscape.UnicodeDigits | gp-res-filter/src/main/java/com/ibm/g11n/pipeline/resfilter/impl/JavaPropertiesResource.java:620-631 | corrected: four hex digits give their value; as written, `Integer.parseInt` also admits a sign |
| PropertiesEscape.Unescape | gp-res-filter/src/main/java/com/ibm/g11n/pipeline/resfilter/impl/JavaPropertiesResource.java:591-661 | the unescape loop computes `Unescaped`, both as written and corrected, throwing where the specification throws |
| PropertiesEscape.DecodeEscape | gp-res-filter/src/main/java/com/ibm/g11n/pipeline/resfilter/impl/JavaPropertiesResource.java:597-647 | the switch on the code unit after a backslash: its decoded units and the index after the escape continue `Unescaped` from the backslash, and each failure it reports is the one `Unescaped` gives there |
| PropertiesEscape.UnescapeEscapedRun | gp-res-filter/src/main/java/com/ibm/g11n/pipeline/resfilter/impl/JavaPropertiesResource.java:591-661 | unescaping the escaping of a run gives the run back before whatever follows |
| PropertiesEscape.EscapeRoundTrip | gp-res-filter/src/main/java/com/ibm/g11n/pipeline/resfilter/impl/JavaPropertiesResource.java:474-661 | `unescape(escape(s))` is `s` for every space mode and encoding, in both readings |
| PropertiesEscape.SpecialsGetBackslash | gp-res-filter/src/main/java/com/ibm/g11n/pipeline/resfilter/impl/JavaPropertiesResource.java:544-550 | `#`, `!`, `=`, `:` and backslash are written with a preceding backslash |
| PropertiesEscape.NonAsciiEscaping | gp-res-filter/src/main/java/com/ibm/g11n/pipeline/resfilter/impl/JavaPropertiesResource.java:503-531 | units outside printable ASCII other than tab, newline, form feed and return are kept in UTF-8 and \\u-escaped otherwise |
| PropertiesEscape.EscapedIsPrintableAscii | gp-res-filter/src/main/java/com/ibm/g11n/pipeline/resfilter/impl/JavaPropertiesResource.java:500-557 | without UTF-8 the escaped text is printable ASCII only |
| PropertiesEscape.KeyEscapingProtectsSpaces | gp-res-filter/src/main/java/com/ibm/g11n/pipeline/resfilter/impl/JavaPropertiesResource.java:534-540 | in a key every space is preceded by a backslash, so no space can end the key |
| PropertiesEscape.ValueEscapingLeavesInnerSpaces | gp-res-filter/src/main/java/com/ibm/g11n/pipeline/resfilter/impl/JavaPropertiesResource.java:479-540 | a value differs from a key's escaping exactly by its unescaped inner spaces |
| PropertiesEscape.UnicodeEscaped | gp-res-filter/src/main/java/com/ibm/g11n/pipeline/resfilter/impl/JavaPropertiesResource.java:670-681 | the text with non-ASCII units \\u-escaped is at least as long |
| PropertiesEscape.EscapeOnlyUnicode | gp-res-filter/src/main/java/com/ibm/g11n/pipeline/resfilter/impl/JavaPropertiesResource.java:670-681 | the loop escapes each unit above U+007F and copies the rest |
| PropertiesEscape.UnicodeEscapedIsAscii | gp-res-filter/src/main/java/com/ibm/g11n/pipeline/resfilter/impl/JavaPropertiesResource.java:670-681 | the result holds no unit above U+007F |
| PropertiesEscape.UnescapeOnlyUnicode | gp-res-filter/src/main/java/com/ibm/g11n/pipeline/resfilter/impl/JavaPropertiesResource.java:691-720 | the loop computes `UnicodeUnescaped`, as written (which can throw) and corrected |
| PropertiesEscape.UnicodeUnescapeTotal | gp-res-filter/src/main/java/com/ibm/g11n/pipeline/resfilter/impl/JavaPropertiesResource.java:691-720 | corrected, unescaping only \\u sequences never throws |
| PropertiesEscape.PlainCommentUnchanged | gp-res-filter/src/main/java/com/ibm/g11n/pipeline/resfilter/impl/JavaPropertiesResource.java:691-720 | text without a backslash is unchanged in both readings |
| PropertiesEscape.UnicodeRoundTrip | gp-res-filter/src/main/java/com/ibm/g11n/pipeline/resfilter/impl/JavaPropertiesResource.java:670-720 | unescaping only \\u sequences undoes escaping only non-ASCII units for text without a backslash |
| PropertiesEscape.UnescapeAcceptsSignedDigits | gp-res-filter/src/main/java/com/ibm/g11n/pipeline/resfilter/impl/JavaPropertiesResource.java:626 | as written `\\u+041` reads as `A`; corrected it is malformed |
| PropertiesEscape.UnescapeRejectsMalformedUnicode | gp-res-filter/src/main/java/com/ibm/g11n/pipeline/resfilter/impl/JavaPropertiesResource.java:614-631 | corrected, a \\u not followed by four hex digits throws IllegalArgumentException |
| PropertiesEscape.UnicodeUnescapeFailsOnShortEscape | gp-res-filter/src/main/java/com/ibm/g11n/pipeline/resfilter/impl/JavaPropertiesResource.java:695-700 | as written, `\\uABC` at the end throws StringIndexOutOfBoundsException; corrected it is copied |
| PropertiesQuotes.ConvertSingleQuote | gp-res-filter/src/main/java/com/ibm/g11n/pipeline/resfilter/impl/JavaPropertiesResource.java:832-921 | the conversion loop computes `SingleQuoteConverted`: unchanged without a quote or a converting pattern, else every quote doubled except quoted braces |
| PropertiesQuotes.ConvertDoubleSingleQuote | gp-res-filter/src/main/java/com/ibm/g11n/pipeline/resfilter/impl/JavaPropertiesResource.java:728-823 | the conversion loop computes `DoubleSingleQuoteConverted`: unchanged without a quote pair or a converting pattern, else each `''` outside quoted braces undoubled |
| PropertiesQuotes.FindQuotePair | gp-res-filter/src/main/java/com/ibm/g11n/pipeline/resfilter/impl/JavaPropertiesResource.java:730 | the first position of `''`, and -1 exactly when there is none |
| PropertiesQuotes.UndoubleDoubled | gp-res-filter/src/main/java/com/ibm/g11n/pipeline/resfilter/impl/JavaPropertiesResource.java:780-914 | undoubling after doubling gives the text back, from either quoted-brace state |
| PropertiesQuotes.UndoubleWithoutPairs | gp-res-filter/src/main/java/com/ibm/g11n/pipeline/resfilter/impl/JavaPropertiesResource.java:729-731 | without a quote pair the undoubling loop changes nothing, so the quick check agrees with it |
| PropertiesQuotes.ConvertRoundTrip | gp-res-filter/src/main/java/com/ibm/g11n/pipeline/resfilter/impl/JavaPropertiesResource.java:728-921 | reading back a written value gives the value, whenever the doubled text is still a converting pattern |
| PropertiesLines.IsContinuationLine | gp-res-filter/src/main/java/com/ibm/g11n/pipeline/resfilter/impl/JavaPropertiesResource.java:197-206 | the counting loop answers whether the line ends in an odd number of backslashes |
| PropertiesLines.SameTrailingBackslashes | gp-res-filter/src/main/java/com/ibm/g11n/pipeline/resfilter/impl/JavaPropertiesResource.java:199-204 | any count of trailing backslashes that stops at a non-backslash is the count |
| PropertiesLines.OneMoreBackslash | gp-res-filter/src/main/java/com/ibm/g11n/pipeline/resfilter/impl/JavaPropertiesResource.java:197-206 | adding one backslash flips whether a line continues |
| PropertiesLines.EscapedNotContinued | gp-res-filter/src/main/java/com/ibm/g11n/pipeline/resfilter/impl/JavaPropertiesResource.java:197-206 | an escaped key or value never reads as continued, and does once a backslash is added |
| PropertiesLines.JoinedExtends | gp-res-filter/src/main/java/com/ibm/g11n/pipeline/resfilter/impl/JavaPropertiesResource.java:160-168 | the continuation join never looks past the line that ends it |
| PropertiesLines.ContinueOnce | gp-res-filter/src/main/java/com/ibm/g11n/pipeline/resfilter/impl/JavaPropertiesResource.java:161-167 | one step of the join loop drops the trailing backslash, appends the next line without its leading spaces and keeps the final join the same |
| PropertiesLines.JoinContinuationLines | gp-res-filter/src/main/java/com/ibm/g11n/pipeline/resfilter/impl/JavaPropertiesResource.java:160-169 | the join loop yields the logical line and the number of lines consumed, as `Joined` defines them; a missing next line just drops the backslash |
| PropertiesLines.SeparatorText | gp-res-filter/src/main/java/com/ibm/g11n/pipeline/resfilter/impl/JavaPropertiesResource.java:248-260 | the text written between key and value starts with a space |
| PropertiesLines.SeparatorFrom | gp-res-filter/src/main/java/com/ibm/g11n/pipeline/resfilter/impl/JavaPropertiesResource.java:289-317 | the separator position found lies inside the line, and past its first unit unless it follows a space |
| PropertiesLines.FindSeparator | gp-res-filter/src/main/java/com/ibm/g11n/pipeline/resfilter/impl/JavaPropertiesResource.java:286-317 | the scanning loop finds the separator and index `SeparatorFrom` defines, or none with index -1 |
| PropertiesLines.MakePropDef | gp-res-filter/src/main/java/com/ibm/g11n/pipeline/resfilter/impl/JavaPropertiesResource.java:319-327 | no entry for a separator at index 0; otherwise the trimmed and unescaped key and the value after the separator, unescaped as written |
| PropertiesLines.ParseLine | gp-res-filter/src/main/java/com/ibm/g11n/pipeline/resfilter/impl/JavaPropertiesResource.java:284-328 | `parseLine` as written: strip, find the separator, split and unescape |
| PropertiesLines.ParseLineNull | gp-res-filter/src/main/java/com/ibm/g11n/pipeline/resfilter/impl/JavaPropertiesResource.java:319-321 | as written, a line gives no entry exactly when no separator is found |
| PropertiesLines.KeyLength | gp-res-filter/src/main/java/com/ibm/g11n/pipeline/resfilter/impl/JavaPropertiesResource.java:290-317 | corrected reader: the key ends at the first unescaped space, tab, form feed, `=` or `:` |
| PropertiesLines.ParseLineAs | gp-res-filter/src/main/java/com/ibm/g11n/pipeline/resfilter/impl/JavaPropertiesResource.java:284-328 | a parsed entry carries no notes, whether the line is read as written or corrected |
| PropertiesLines.ParsedParts | gp-res-filter/src/main/java/com/ibm/g11n/pipeline/resfilter/impl/JavaPropertiesResource.java:284-328 | corrected reader: a key, a separator and a value split at the separator the writer put there |
| PropertiesLines.EntryRoundTrip | gp-res-filter/src/main/java/com/ibm/g11n/pipeline/resfilter/impl/JavaPropertiesResource.java:284-328 | corrected reader: an escaped key, a separator and a value give back the key and the value |
| PropertiesLines.SingleLineRoundTrip | gp-res-filter/src/main/java/com/ibm/g11n/pipeline/resfilter/impl/JavaPropertiesResource.java:284-328 | corrected reader: an entry printed on one line reads back as the same key, value and separator |
| PropertiesLines.SpacedLineAsWritten | gp-res-filter/src/main/java/com/ibm/g11n/pipeline/resfilter/impl/JavaPropertiesResource.java:292-324 | as written, `k v` gives key `k` and an empty value |
| PropertiesLines.SpaceSeparatorLosesValueStart | gp-res-filter/src/main/java/com/ibm/g11n/pipeline/resfilter/impl/JavaPropertiesResource.java:292-324 | a printed `k v` entry reads back with an empty value as written and with `v` corrected |
| PropertiesLines.EscapedSpaceLineAsWritten | gp-res-filter/src/main/java/com/ibm/g11n/pipeline/resfilter/impl/JavaPropertiesResource.java:323 | as written, a key ending in an escaped space loses that space to `trim()` |
| PropertiesLines.EscapedSpaceLineCorrected | gp-res-filter/src/main/java/com/ibm/g11n/pipeline/resfilter/impl/JavaPropertiesResource.java:323 | corrected, that key keeps its trailing space |
| PropertiesLines.TrimDropsEscapedSpace | gp-res-filter/src/main/java/com/ibm/g11n/pipeline/resfilter/impl/JavaPropertiesResource.java:323 | the printed entry for key `a ` reads back as `a` as written and as `a ` corrected |
| PropertiesParse.NoteText | gp-res-filter/src/main/java/com/ibm/g11n/pipeline/resfilter/impl/JavaPropertiesResource.java:132-143 | a UTF-8 comment keeps its text after the marker; otherwise it is unescaped for \\u only, which as written can throw |
| PropertiesParse.BlankLine | gp-res-filter/src/main/java/com/ibm/g11n/pipeline/resfilter/impl/JavaPropertiesResource.java:144-155 | a blank line ends the chance of global notes and leaves the properties alone |
| PropertiesParse.PutProperty | gp-res-filter/src/main/java/com/ibm/g11n/pipeline/resfilter/impl/JavaPropertiesResource.java:95-115 | `setProperty` records the value under the key and clears the pending notes |
| PropertiesParse.PutPropertyKeeps | gp-res-filter/src/main/java/com/ibm/g11n/pipeline/resfilter/impl/JavaPropertiesResource.java:95-115 | the linked properties keep keys in first-insertion order: a new key is appended, a repeated one keeps its place |
| PropertiesParse.StepWellFormed | gp-res-filter/src/main/java/com/ibm/g11n/pipeline/resfilter/impl/JavaPropertiesResource.java:127-179 | one round of the read loop keeps the parse state well formed |
| PropertiesParse.ParsedEntry | gp-res-filter/src/main/java/com/ibm/g11n/pipeline/resfilter/impl/JavaPropertiesResource.java:156-178 | an entry line and its continuation lines are consumed together and put as one property |
| PropertiesParse.ParsedComment | gp-res-filter/src/main/java/com/ibm/g11n/pipeline/resfilter/impl/JavaPropertiesResource.java:132-143 | a comment line adds one pending note |
| PropertiesParse.ParsedBlank | gp-res-filter/src/main/java/com/ibm/g11n/pipeline/resfilter/impl/JavaPropertiesResource.java:144-155 | a blank line is handled as a blank line and consumes one line |
| PropertiesParse.BundleStrings | gp-res-filter/src/main/java/com/ibm/g11n/pipeline/resfilter/impl/JavaPropertiesResource.java:181-187 | one string per distinct key |
| PropertiesParse.ParsedBundleShape | gp-res-filter/src/main/java/com/ibm/g11n/pipeline/resfilter/impl/JavaPropertiesResource.java:181-191 | the strings are numbered 1, 2, 3, ..., hence sorted, and no key appears twice |
| PropertiesParse.AddStrings | gp-res-filter/src/main/java/com/ibm/g11n/pipeline/resfilter/impl/JavaPropertiesResource.java:181-187 | the loop over ordered keys adds exactly the bundle strings, each with its notes |
| PropertiesParse.ReadComment | gp-res-filter/src/main/java/com/ibm/g11n/pipeline/resfilter/impl/JavaPropertiesResource.java:132-143 | reads one comment's note as `NoteText` defines it |
| PropertiesParse.ReadEntry | gp-res-filter/src/main/java/com/ibm/g11n/pipeline/resfilter/impl/JavaPropertiesResource.java:169-171 | parses a logical line and converts its value's quotes, throwing NullPointerException for a line `parseLine` rejects (as written) |
| PropertiesParse.ParseStep | gp-res-filter/src/main/java/com/ibm/g11n/pipeline/resfilter/impl/JavaPropertiesResource.java:127-178 | one round of the read loop, as `Step` defines it |
| PropertiesParse.ParseEntryLines | gp-res-filter/src/main/java/com/ibm/g11n/pipeline/resfilter/impl/JavaPropertiesResource.java:156-178 | joins the continuation lines and puts the entry |
| PropertiesParse.BuildBundle | gp-res-filter/src/main/java/com/ibm/g11n/pipeline/resfilter/impl/JavaPropertiesResource.java:181-191 | the built bundle holds the bundle strings and the global notes, with no embedded code |
| PropertiesParse.ReadLines | gp-res-filter/src/main/java/com/ibm/g11n/pipeline/resfilter/impl/JavaPropertiesResource.java:120-179 | the read loop computes `ParsedLines` from the start state |
| PropertiesParse.Parse | gp-res-filter/src/main/java/com/ibm/g11n/pipeline/resfilter/impl/JavaPropertiesResource.java:117-192 | `parse` yields the specification's bundle or throws what it throws, both for the reader as written and for the corrected one |
| PropertiesPrint.NoteLines | gp-res-filter/src/main/java/com/ibm/g11n/pipeline/resfilter/impl/JavaPropertiesResource.java:356-364 | one comment line per note, in order, and none when there are no notes |
| PropertiesPrint.PrintNotes | gp-res-filter/src/main/java/com/ibm/g11n/pipeline/resfilter/impl/JavaPropertiesResource.java:356-364 | the notes loop prints exactly those lines |
| PropertiesPrint.Lines | gp-res-filter/src/main/java/com/ibm/g11n/pipeline/resfilter/impl/JavaPropertiesResource.java:378-439 | one physical line per piece of the wrapped entry |
| PropertiesPrint.WrapStep | gp-res-filter/src/main/java/com/ibm/g11n/pipeline/resfilter/impl/JavaPropertiesResource.java:403-432 | one segment step keeps at least one piece and a non-empty first line |
| PropertiesPrint.StepLines | gp-res-filter/src/main/java/com/ibm/g11n/pipeline/resfilter/impl/JavaPropertiesResource.java:411-427 | a segment step either ends the current line with a backslash and opens an indented one, or extends the current line |
| PropertiesPrint.WrapSegment | gp-res-filter/src/main/java/com/ibm/g11n/pipeline/resfilter/impl/JavaPropertiesResource.java:403-432 | the loop body computes one `WrapStep` on the printed lines, buffer and deferred-break flag |
| PropertiesPrint.PrintSegment | gp-res-filter/src/main/java/com/ibm/g11n/pipeline/resfilter/impl/JavaPropertiesResource.java:403-426 | one round escapes the segment (leading white space only for the first) and performs the `WrapStep` for it |
| PropertiesPrint.WrapSegments | gp-res-filter/src/main/java/com/ibm/g11n/pipeline/resfilter/impl/JavaPropertiesResource.java:398-431 | the segment loop ends in the state `Wrapped` gives, with the printed lines and buffer matching it |
| PropertiesPrint.WrappedIsEscaped | gp-res-filter/src/main/java/com/ibm/g11n/pipeline/resfilter/impl/JavaPropertiesResource.java:398-431 | escaping every segment and then wrapping gives the same state as the loop that escapes as it goes |
| PropertiesPrint.PrintWrapped | gp-res-filter/src/main/java/com/ibm/g11n/pipeline/resfilter/impl/JavaPropertiesResource.java:380-439 | the multi-line branch prints the lines of the wrapped pieces |
| PropertiesPrint.Print | gp-res-filter/src/main/java/com/ibm/g11n/pipeline/resfilter/impl/JavaPropertiesResource.java:350-440 | `PropDef.print` prints the notes and then the one-line or the wrapped form |
| PropertiesPrint.WrapStepKeeps | gp-res-filter/src/main/java/com/ibm/g11n/pipeline/resfilter/impl/JavaPropertiesResource.java:411-427 | a line only breaks before a segment not starting with white space, and the pieces concatenate to what was printed so far |
| PropertiesPrint.WrappedKeeps | gp-res-filter/src/main/java/com/ibm/g11n/pipeline/resfilter/impl/JavaPropertiesResource.java:402-435 | after all segments the pieces concatenate to the escaped value and stay well shaped |
| PropertiesPrint.ReadWrapped | gp-res-filter/src/main/java/com/ibm/g11n/pipeline/resfilter/impl/JavaPropertiesResource.java:160-169 | the reader's continuation join of the printed lines gives back the concatenated pieces and consumes every line |
| PropertiesPrint.UnescapeSegments | gp-res-filter/src/main/java/com/ibm/g11n/pipeline/resfilter/impl/JavaPropertiesResource.java:403-410 | unescaping the escaped segments gives the whole value |
| PropertiesPrint.KeyLineShape | gp-res-filter/src/main/java/com/ibm/g11n/pipeline/resfilter/impl/JavaPropertiesResource.java:380-385 | the key line is not blank, not a comment and does not read as continued |
| PropertiesPrint.ReadWrappedEntry | gp-res-filter/src/main/java/com/ibm/g11n/pipeline/resfilter/impl/JavaPropertiesResource.java:378-439 | the wrapped entry's lines join back to the key line followed by the escaped value |
| PropertiesPrint.PrintedEntryReadsBack | gp-res-filter/src/main/java/com/ibm/g11n/pipeline/resfilter/impl/JavaPropertiesResource.java:350-440 | corrected reader: a printed entry, wrapped or not, reads back as the same key, value and separator over exactly its lines |
| PropertiesPrint.PrintedEntryEnds | gp-res-filter/src/main/java/com/ibm/g11n/pipeline/resfilter/impl/JavaPropertiesResource.java:350-440 | the last printed line never reads as continued, so the next entry stays separate |
| PropertiesWrite.EntryDef | gp-res-filter/src/main/java/com/ibm/g11n/pipeline/resfilter/impl/JavaPropertiesResource.java:229-233 | each string is printed under its own key, with `=` and with its own notes |
| PropertiesWrite.EntriesTextAppend | gp-res-filter/src/main/java/com/ibm/g11n/pipeline/resfilter/impl/JavaPropertiesResource.java:229-234 | the entries' text is each string's text in turn |
| PropertiesWrite.WriteEntry | gp-res-filter/src/main/java/com/ibm/g11n/pipeline/resfilter/impl/JavaPropertiesResource.java:230-233 | converts the value's quotes and prints the entry |
| PropertiesWrite.WriteEntries | gp-res-filter/src/main/java/com/ibm/g11n/pipeline/resfilter/impl/JavaPropertiesResource.java:229-234 | the loop prints every sorted string in order |
| PropertiesWrite.Write | gp-res-filter/src/main/java/com/ibm/g11n/pipeline/resfilter/impl/JavaPropertiesResource.java:209-236 | `write`: NullPointerException without strings, else the notes, a blank line after them, the time stamp comment and the sorted entries |
| PropertiesRoundTrip.CommentReadBack | gp-res-filter/src/main/java/com/ibm/g11n/pipeline/resfilter/impl/JavaPropertiesResource.java:216-224 | a note written as a comment reads back as the same note |
| PropertiesRoundTrip.NotesReadBack | gp-res-filter/src/main/java/com/ibm/g11n/pipeline/resfilter/impl/JavaPropertiesResource.java:132-143 | the written notes read back as pending notes, in order |
| PropertiesRoundTrip.HeaderReadBack | gp-res-filter/src/main/java/com/ibm/g11n/pipeline/resfilter/impl/JavaPropertiesResource.java:144-155 | the notes, blank line and time stamp read back: the notes as global notes, the stamp as a pending note |
| PropertiesRoundTrip.EntryLinesReadBack | gp-res-filter/src/main/java/com/ibm/g11n/pipeline/resfilter/impl/JavaPropertiesResource.java:156-178 | corrected reader: an entry's printed lines read back as that one property |
| PropertiesRoundTrip.EntryReadBack | gp-res-filter/src/main/java/com/ibm/g11n/pipeline/resfilter/impl/JavaPropertiesResource.java:229-233 | corrected reader: a written string, notes and entry, reads back as the string with its notes |
| PropertiesRoundTrip.EntriesReadBack | gp-res-filter/src/main/java/com/ibm/g11n/pipeline/resfilter/impl/JavaPropertiesResource.java:127-179 | the written entries read back one after another |
| PropertiesRoundTrip.FinalStateReadBack | gp-res-filter/src/main/java/com/ibm/g11n/pipeline/resfilter/impl/JavaPropertiesResource.java:181-191 | after all entries, the bundle strings are the written ones numbered 1, 2, 3, ... and the global notes are the written notes |
| PropertiesRoundTrip.SortedCopyKeeps | gp-res-filter/src/main/java/com/ibm/g11n/pipeline/resfilter/impl/JavaPropertiesResource.java:212 | sorting keeps the strings, so they stay writable and distinct |
| PropertiesRoundTrip.WrittenLinesReadBack | gp-res-filter/src/main/java/com/ibm/g11n/pipeline/resfilter/impl/JavaPropertiesResource.java:209-236 | corrected reader: parsing the written lines ends in the state the written strings lead to |
| PropertiesRoundTrip.WriteThenParse | gp-res-filter/src/main/java/com/ibm/g11n/pipeline/resfilter/impl/JavaPropertiesResource.java:117-236 | corrected reader: parsing what `write` wrote gives the sorted strings with their values and notes (the time stamp joining the first string's notes) and the bundle notes |
| PropertiesMerge.Indented | gp-res-filter/src/main/java/com/ibm/g11n/pipeline/resfilter/impl/JavaPropertiesResource.java:988-997 | the entry's first printed line gets the original leading white space; the others are unchanged |
| PropertiesMerge.Gathered | gp-res-filter/src/main/java/com/ibm/g11n/pipeline/resfilter/impl/JavaPropertiesResource.java:969-981 | gathering continuation lines never consumes more lines than there are |
| PropertiesMerge.GroupOf | gp-res-filter/src/main/java/com/ibm/g11n/pipeline/resfilter/impl/JavaPropertiesResource.java:955-981 | one logical line of the base takes at least one and at most all remaining lines |
| PropertiesMerge.EntryStep | gp-res-filter/src/main/java/com/ibm/g11n/pipeline/resfilter/impl/JavaPropertiesResource.java:984-1008 | a logical line either throws (exactly when parsing it throws) or becomes one piece standing for exactly its source lines |
| PropertiesMerge.Step | gp-res-filter/src/main/java/com/ibm/g11n/pipeline/resfilter/impl/JavaPropertiesResource.java:943-1014 | a round of the loop takes between one and all remaining lines and its pieces stand for exactly those lines |
| PropertiesMerge.MergedSources | gp-res-filter/src/main/java/com/ibm/g11n/pipeline/resfilter/impl/JavaPropertiesResource.java:943-1014 | the pieces of a merge that does not throw stand for the base lines, in order, each once |
| PropertiesMerge.MergedReplacesFromMap | gp-res-filter/src/main/java/com/ibm/g11n/pipeline/resfilter/impl/JavaPropertiesResource.java:986-997 | every replaced entry has a key in the bundle and takes the bundle's value with its quotes converted |
| PropertiesMerge.NothingToMergeCopies | gp-res-filter/src/main/java/com/ibm/g11n/pipeline/resfilter/impl/JavaPropertiesResource.java:998-1008 | with an empty bundle the merge copies the base file unchanged |
| PropertiesMerge.GatheredAsJoined | gp-res-filter/src/main/java/com/ibm/g11n/pipeline/resfilter/impl/JavaPropertiesResource.java:161-168 | corrected rule: merge gathers continuation lines exactly as parse joins them |
| PropertiesMerge.GroupAsParse | gp-res-filter/src/main/java/com/ibm/g11n/pipeline/resfilter/impl/JavaPropertiesResource.java:955-981 | corrected rule: merge's logical line parses like the one parse reads, over the same number of lines |
| PropertiesMerge.WriteEntry | gp-res-filter/src/main/java/com/ibm/g11n/pipeline/resfilter/impl/JavaPropertiesResource.java:984-1008 | writes one logical line's output: the reprinted entry after the original indent, or the original lines |
| PropertiesMerge.OpenLine | gp-res-filter/src/main/java/com/ibm/g11n/pipeline/resfilter/impl/JavaPropertiesResource.java:955-968 | a line with no pending continuation: a comment copied, a continued line opened, or a logical line written |
| PropertiesMerge.ContinueLine | gp-res-filter/src/main/java/com/ibm/g11n/pipeline/resfilter/impl/JavaPropertiesResource.java:969-981 | a line continuing a pending one: gathered, or ending it and writing the logical line |
| PropertiesMerge.MergeLines | gp-res-filter/src/main/java/com/ibm/g11n/pipeline/resfilter/impl/JavaPropertiesResource.java:938-1014 | the read loop computes `MergedLines`, with either continuation rule and either line parser |
| PropertiesMerge.Merge | gp-res-filter/src/main/java/com/ibm/g11n/pipeline/resfilter/impl/JavaPropertiesResource.java:928-1017 | `merge`: NullPointerException without strings, else the merge of the base with the bundle's key-to-value map, as written or corrected |
| PropertiesMerge.AsWrittenSwallowsNextEntry | gp-res-filter/src/main/java/com/ibm/g11n/pipeline/resfilter/impl/JavaPropertiesResource.java:971 | as written, after a continued line a line ending in an escaped backslash continues too and swallows the next entry |
| PropertiesMerge.CorrectedKeepsNextEntry | gp-res-filter/src/main/java/com/ibm/g11n/pipeline/resfilter/impl/JavaPropertiesResource.java:971 | with the parity rule the same logical line ends after two lines |
| AmdJsExtract.Unparenthesized | gp-res-filter/src/main/java/com/ibm/g11n/pipeline/resfilter/impl/AmdJsResource.java:150-162 | one layer of parentheses is removed and any other node is returned as it is |
| AmdJsExtract.Operands | gp-res-filter/src/main/java/com/ibm/g11n/pipeline/resfilter/impl/AmdJsResource.java:164-189 | the right operands of a binary-expression chain and its leftmost operand: never empty |
| AmdJsExtract.FragmentsOfStrings | gp-res-filter/src/main/java/com/ibm/g11n/pipeline/resfilter/impl/AmdJsResource.java:164-189 | when every operand is a string literal the value is the operands' texts joined in source order |
| AmdJsExtract.FragmentsOfNonString | gp-res-filter/src/main/java/com/ibm/g11n/pipeline/resfilter/impl/AmdJsResource.java:174-187 | an operand that is not a string literal makes the value absent |
| AmdJsExtract.PlusChainConcatenated | gp-res-filter/src/main/java/com/ibm/g11n/pipeline/resfilter/impl/AmdJsResource.java:164-189 | a chain of string literals, parenthesised or not, concatenates to the joined fragments |
| AmdJsExtract.ConcatStringNodes | gp-res-filter/src/main/java/com/ibm/g11n/pipeline/resfilter/impl/AmdJsResource.java:164-189 | the loop computes `Concatenated` |
| AmdJsExtract.KeyOf | gp-res-filter/src/main/java/com/ibm/g11n/pipeline/resfilter/impl/AmdJsResource.java:127-136 | a property has a key exactly when its left side is a string literal or an identifier |
| AmdJsExtract.FirstRootBundle | gp-res-filter/src/main/java/com/ibm/g11n/pipeline/resfilter/impl/AmdJsResource.java:78-109 | the first property named root in any letter case whose value is an object literal gives the key/value properties |
| AmdJsExtract.NoRootBundle | gp-res-filter/src/main/java/com/ibm/g11n/pipeline/resfilter/impl/AmdJsResource.java:112-123 | without such a property the object's own properties are used |
| AmdJsExtract.PropertyEntry | gp-res-filter/src/main/java/com/ibm/g11n/pipeline/resfilter/impl/AmdJsResource.java:126-143 | a property gives an entry exactly when it has a key and its value concatenates |
| AmdJsExtract.FindRootProperties | gp-res-filter/src/main/java/com/ibm/g11n/pipeline/resfilter/impl/AmdJsResource.java:73-110 | the loop computes `RootProperties` |
| AmdJsExtract.Put | gp-res-filter/src/main/java/com/ibm/g11n/pipeline/resfilter/impl/AmdJsResource.java:143 | a put maps the key to the new value and leaves every other key |
| AmdJsExtract.PutOrdered | gp-res-filter/src/main/java/com/ibm/g11n/pipeline/resfilter/impl/AmdJsResource.java:143 | a put keeps insertion order: the old keys stay first and a present key does not move |
| AmdJsExtract.PutPropertiesOrdered | gp-res-filter/src/main/java/com/ibm/g11n/pipeline/resfilter/impl/AmdJsResource.java:126-144 | putting all entries keeps the old keys first, in order |
| AmdJsExtract.PutPropertiesLastWins | gp-res-filter/src/main/java/com/ibm/g11n/pipeline/resfilter/impl/AmdJsResource.java:126-144 | the last property with a key gives that key's value |
| AmdJsExtract.PutPropertiesKeepsOthers | gp-res-filter/src/main/java/com/ibm/g11n/pipeline/resfilter/impl/AmdJsResource.java:126-144 | a key no property gives keeps its presence and its value |
| AmdJsExtract.CollectedOrdered | gp-res-filter/src/main/java/com/ibm/g11n/pipeline/resfilter/impl/AmdJsResource.java:206 | walking the whole tree keeps insertion order |
| AmdJsExtract.CollectedFromOrdered | gp-res-filter/src/main/java/com/ibm/g11n/pipeline/resfilter/impl/AmdJsResource.java:206 | walking a list of children keeps insertion order |
| AmdJsExtract.KeyValueVisitor.constructor | gp-res-filter/src/main/java/com/ibm/g11n/pipeline/resfilter/impl/AmdJsResource.java:66 | the visitor starts with no elements |
| AmdJsExtract.KeyValueVisitor.Visit | gp-res-filter/src/main/java/com/ibm/g11n/pipeline/resfilter/impl/AmdJsResource.java:69-148 | an object literal puts its entries and stops the walk below it; any other node changes nothing and continues |
| AmdJsExtract.KeyValueVisitor.PutAll | gp-res-filter/src/main/java/com/ibm/g11n/pipeline/resfilter/impl/AmdJsResource.java:126-144 | the elements become the old elements with every property's entry put |
| AmdJsExtract.VisitAll | gp-res-filter/src/main/java/com/ibm/g11n/pipeline/resfilter/impl/AmdJsResource.java:206 | the walk leaves the visitor holding `Collected` of the tree |
| AmdJsExtract.AmdStrings | gp-res-filter/src/main/java/com/ibm/g11n/pipeline/resfilter/impl/AmdJsResource.java:207-213 | one resource string per collected key |
| AmdJsExtract.AmdStringsShape | gp-res-filter/src/main/java/com/ibm/g11n/pipeline/resfilter/impl/AmdJsResource.java:207-213 | the strings are numbered from one in insertion order, their keys are distinct, and every collected key has its value |
| AmdJsExtract.AddEntries | gp-res-filter/src/main/java/com/ibm/g11n/pipeline/resfilter/impl/AmdJsResource.java:208-210 | the builder receives exactly `AmdStrings` of the elements; its notes and language code stay |
| AmdJsExtract.Parse | gp-res-filter/src/main/java/com/ibm/g11n/pipeline/resfilter/impl/AmdJsResource.java:193-214 | the bundle holds `AmdStrings` of what the walk collects, with no notes and no embedded language code |
| AmdJsMerge.TabPrefixIsLongest | gp-res-filter/src/main/java/com/ibm/g11n/pipeline/resfilter/impl/AmdJsResource.java:431-438 | the tab prefix is the longest prefix of spaces and tabs |
| AmdJsMerge.ExtractTabPrefix | gp-res-filter/src/main/java/com/ibm/g11n/pipeline/resfilter/impl/AmdJsResource.java:431-438 | the loop returns the line's prefix of spaces and tabs |
| AmdJsMerge.SpacesWidthCounts | gp-res-filter/src/main/java/com/ibm/g11n/pipeline/resfilter/impl/AmdJsResource.java:441-456 | the display width is four per tab plus one per space; other code units count nothing |
| AmdJsMerge.TabStrWidth | gp-res-filter/src/main/java/com/ibm/g11n/pipeline/resfilter/impl/AmdJsResource.java:418-424 | the continuation indent is eight columns wide, whether two tabs or eight spaces |
| AmdJsMerge.GetSpacesWidth | gp-res-filter/src/main/java/com/ibm/g11n/pipeline/resfilter/impl/AmdJsResource.java:446-456 | the loop computes `SpacesWidth` |
| AmdJsMerge.FormatEntry | gp-res-filter/src/main/java/com/ibm/g11n/pipeline/resfilter/impl/AmdJsResource.java:300-410 | IllegalArgumentException exactly when the columns cannot hold the indents, the quotes and the separator; otherwise StringIndexOutOfBoundsException exactly when the key or the value is empty (`extractText` cuts at the boundary `DONE`) |
| AmdJsMerge.EmptyValueThrows | gp-res-filter/src/main/java/com/ibm/g11n/pipeline/resfilter/impl/AmdJsResource.java:258-263 | a key line whose bundle value is empty never yields a merged entry: formatting it throws |
| AmdJsMerge.MergeGuard | gp-res-filter/src/main/java/com/ibm/g11n/pipeline/resfilter/impl/AmdJsResource.java:301-303 | in merge the column guard throws exactly for an indent of 74 or more code units after a tab, else 68 or more |
| AmdJsMerge.LeadingRegexSpacesAre | gp-res-filter/src/main/java/com/ibm/g11n/pipeline/resfilter/impl/AmdJsResource.java:59 | the counted prefix is the longest run of regular-expression white space |
| AmdJsMerge.TrailingRegexSpacesAre | gp-res-filter/src/main/java/com/ibm/g11n/pipeline/resfilter/impl/AmdJsResource.java:60 | the counted suffix is the longest run of regular-expression white space |
| AmdJsMerge.ColonAfter | gp-res-filter/src/main/java/com/ibm/g11n/pipeline/resfilter/impl/AmdJsResource.java:59 | the colon after the key's closing quote and its spaces |
| AmdJsMerge.ClosingQuoteIsFirst | gp-res-filter/src/main/java/com/ibm/g11n/pipeline/resfilter/impl/AmdJsResource.java:59 | the closing quote found is the first possible one, or there is none |
| AmdJsMerge.KeyLineMatches | gp-res-filter/src/main/java/com/ibm/g11n/pipeline/resfilter/impl/AmdJsResource.java:59 | a key line as modelled matches `KEY_LINE_PATTERN` |
| AmdJsMerge.MatchIsKeyLine | gp-res-filter/src/main/java/com/ibm/g11n/pipeline/resfilter/impl/AmdJsResource.java:59 | a line matching `KEY_LINE_PATTERN` is a key line as modelled |
| AmdJsMerge.EntryEndIsPattern | gp-res-filter/src/main/java/com/ibm/g11n/pipeline/resfilter/impl/AmdJsResource.java:60 | the entry-end test holds exactly when `ENTRY_END_LINE_PATTERN` matches |
| AmdJsMerge.BeforeColon | gp-res-filter/src/main/java/com/ibm/g11n/pipeline/resfilter/impl/AmdJsResource.java:253-254 | the part of the line before its first colon holds no colon |
| AmdJsMerge.KeyEnd | gp-res-filter/src/main/java/com/ibm/g11n/pipeline/resfilter/impl/AmdJsResource.java:256 | a key line's closing quote lies after its leading space, the opening quote and at least one key code unit |
| AmdJsMerge.KeyAsWrittenAgrees | gp-res-filter/src/main/java/com/ibm/g11n/pipeline/resfilter/impl/AmdJsResource.java:253-256 | when the key holds no colon, the as-written key extraction gives the key between the quotes |
| AmdJsMerge.BeforeColonOfKeyLine | gp-res-filter/src/main/java/com/ibm/g11n/pipeline/resfilter/impl/AmdJsResource.java:253-254 | when the key holds no colon, the split stops at the colon after the closing quote |
| AmdJsMerge.QuotesOfKeyLine | gp-res-filter/src/main/java/com/ibm/g11n/pipeline/resfilter/impl/AmdJsResource.java:256 | no double quote precedes the key or lies between its closing quote and the colon |
| AmdJsMerge.EntryRest | gp-res-filter/src/main/java/com/ibm/g11n/pipeline/resfilter/impl/AmdJsResource.java:265-278 | an entry's remaining lines are never more than the lines left |
| AmdJsMerge.AmdRound | gp-res-filter/src/main/java/com/ibm/g11n/pipeline/resfilter/impl/AmdJsResource.java:247-280 | one round of the loop consumes at least one line and no more than there are |
| AmdJsMerge.ReplacedRound | gp-res-filter/src/main/java/com/ibm/g11n/pipeline/resfilter/impl/AmdJsResource.java:258-272 | a replaced entry consumes the scanner's lines up to its end, the `}` token read across the following text, and emits one formatted entry |
| AmdJsMerge.CopiedRound | gp-res-filter/src/main/java/com/ibm/g11n/pipeline/resfilter/impl/AmdJsResource.java:273-279 | a copied entry emits exactly the lines it consumes |
| AmdJsMerge.RoundOutput | gp-res-filter/src/main/java/com/ibm/g11n/pipeline/resfilter/impl/AmdJsResource.java:250-279 | a round copies its lines unless it replaces a key the bundle holds, and then writes one line |
| AmdJsMerge.NothingToMergeCopies | gp-res-filter/src/main/java/com/ibm/g11n/pipeline/resfilter/impl/AmdJsResource.java:239-281 | with an empty bundle a merge that does not throw copies the base file unchanged |
| AmdJsMerge.RoundWithoutKeys | gp-res-filter/src/main/java/com/ibm/g11n/pipeline/resfilter/impl/AmdJsResource.java:258-279 | without keys every round copies its lines |
| AmdJsMerge.MergedAmdStep | gp-res-filter/src/main/java/com/ibm/g11n/pipeline/resfilter/impl/AmdJsResource.java:247-281 | the merge output is the first round's output followed by the merge of the rest |
| AmdJsMerge.PlainRound | gp-res-filter/src/main/java/com/ibm/g11n/pipeline/resfilter/impl/AmdJsResource.java:250-251 | a line that is no key line, or that opens an object, is copied on its own |
| AmdJsMerge.LeadingCopies | gp-res-filter/src/main/java/com/ibm/g11n/pipeline/resfilter/impl/AmdJsResource.java:250-251 | a run of such lines is copied ahead of the rest |
| AmdJsMerge.SkipEntry | gp-res-filter/src/main/java/com/ibm/g11n/pipeline/resfilter/impl/AmdJsResource.java:265-267 | the skip loop computes `EntryRest`, the replaced entry's remaining scanner lines, with the `}` token test on the text after them |
| AmdJsMerge.CopyEntry | gp-res-filter/src/main/java/com/ibm/g11n/pipeline/resfilter/impl/AmdJsResource.java:274-278 | the copy loop returns the copied entry's remaining lines, or its exception |
| AmdJsMerge.MergeRound | gp-res-filter/src/main/java/com/ibm/g11n/pipeline/resfilter/impl/AmdJsResource.java:248-280 | one iteration, on the scanner's next line, computes `AmdRound` |
| AmdJsMerge.ReplaceRound | gp-res-filter/src/main/java/com/ibm/g11n/pipeline/resfilter/impl/AmdJsResource.java:259-272 | the replace branch computes `ReplacedRound` on the scanner's lines |
| AmdJsMerge.CopyRound | gp-res-filter/src/main/java/com/ibm/g11n/pipeline/resfilter/impl/AmdJsResource.java:273-279 | the copy branch computes `CopiedRound` |
| AmdJsMerge.MergeLines | gp-res-filter/src/main/java/com/ibm/g11n/pipeline/resfilter/impl/AmdJsResource.java:247-281 | the loop over the lines the scanner reads from the base text, cut at every Java line terminator, computes `MergedAmd`, as written or corrected |
| AmdJsMerge.Merge | gp-res-filter/src/main/java/com/ibm/g11n/pipeline/resfilter/impl/AmdJsResource.java:236-282 | NullPointerException without strings, else the merge of the scanner's lines of the base text with the bundle's key-to-value map |
| AmdJsMerge.LastPlainLine | gp-res-filter/src/main/java/com/ibm/g11n/pipeline/resfilter/impl/AmdJsResource.java:250-251 | a last piece whose line is no key line prints that line |
| AmdJsMerge.LineSeparatorSplitsLine | gp-res-filter/src/main/java/com/ibm/g11n/pipeline/resfilter/impl/AmdJsResource.java:247-252 | the base text `a` U+2028 `b` is two lines to `merge`, each printed on its own |
| AmdJsMerge.AsWrittenColonKeyThrows | gp-res-filter/src/main/java/com/ibm/g11n/pipeline/resfilter/impl/AmdJsResource.java:253-256 | as written, a key holding a colon makes `substring` throw and the merge fail |
| AmdJsMerge.CorrectedColonKeyReplaced | gp-res-filter/src/main/java/com/ibm/g11n/pipeline/resfilter/impl/AmdJsResource.java:253-256 | reading the key up to its closing quote, the same entry is replaced by a non-empty value; an empty value throws as for any key |
| AmdJsMerge.AsWrittenCopyRunsOff | gp-res-filter/src/main/java/com/ibm/g11n/pipeline/resfilter/impl/AmdJsResource.java:274-278 | as written, copying a last entry without a trailing comma reads past the end of the file |
| AmdJsMerge.CorrectedCopyKeepsLines | gp-res-filter/src/main/java/com/ibm/g11n/pipeline/resfilter/impl/AmdJsResource.java:274-278 | stopping before a closing brace line, the same file is copied unchanged |
| JsonResource.EscapeQuotes | gp-res-filter/src/main/java/com/ibm/g11n/pipeline/resfilter/impl/JsonResource.java:166 | a key with every single quote escaped holds no single quote and adds only escape code units |
| JsonResource.EncodeResourceKey | gp-res-filter/src/main/java/com/ibm/g11n/pipeline/resfilter/impl/JsonResource.java:137-175 | IllegalArgumentException exactly for an absent or empty key; under the root a leaf is escaped only when it looks like a path, an inner node always gets the root mark; under a parent the key is appended with a dot or in brackets |
| JsonResource.TokensFrom | gp-res-filter/src/main/java/com/ibm/g11n/pipeline/resfilter/impl/JsonResource.java:278-301 | the tokens are never an empty list |
| JsonResource.TokensKeepText | gp-res-filter/src/main/java/com/ibm/g11n/pipeline/resfilter/impl/JsonResource.java:278-301 | the tokens joined give the input without its unquoted separators |
| JsonResource.TokensNonEmpty | gp-res-filter/src/main/java/com/ibm/g11n/pipeline/resfilter/impl/JsonResource.java:287-291 | every token but the last is non-empty |
| JsonResource.FindTokens | gp-res-filter/src/main/java/com/ibm/g11n/pipeline/resfilter/impl/JsonResource.java:278-301 | the loop computes `Tokens` |
| JsonResource.TokenPieces | gp-res-filter/src/main/java/com/ibm/g11n/pipeline/resfilter/impl/JsonResource.java:257-273 | a token gives its pieces; only the lone quote throws StringIndexOutOfBoundsException |
| JsonResource.DotPartsSplit | gp-res-filter/src/main/java/com/ibm/g11n/pipeline/resfilter/impl/JsonResource.java:265-269 | the non-empty parts of a dotted token are dot-free and join back to the token without dots |
| JsonResource.PlainTokenPieces | gp-res-filter/src/main/java/com/ibm/g11n/pipeline/resfilter/impl/JsonResource.java:264-270 | a plain token gives object pieces that are non-empty, dot-free and join to the token without dots |
| JsonResource.DigitTokenPiece | gp-res-filter/src/main/java/com/ibm/g11n/pipeline/resfilter/impl/JsonResource.java:262-263 | a token of digits gives one array piece |
| JsonResource.QuotedTokenPiece | gp-res-filter/src/main/java/com/ibm/g11n/pipeline/resfilter/impl/JsonResource.java:258-261 | a quoted token gives one object piece with its quotes unescaped |
| JsonResource.KeyPieces | gp-res-filter/src/main/java/com/ibm/g11n/pipeline/resfilter/impl/JsonResource.java:251-276 | a key that does not look like a path is one object piece |
| JsonResource.SplitKeyPieces | gp-res-filter/src/main/java/com/ibm/g11n/pipeline/resfilter/impl/JsonResource.java:251-276 | the loop computes `KeyPieces` |
| JsonResource.Decimal | gp-res-filter/src/main/java/com/ibm/g11n/pipeline/resfilter/impl/JsonResource.java:94 | an array index is written with digits only |
| JsonResource.ChildKey | gp-res-filter/src/main/java/com/ibm/g11n/pipeline/resfilter/impl/JsonResource.java:89-94 | a child's key is its parent's key followed by the child's step |
| JsonResource.EncodeChild | gp-res-filter/src/main/java/com/ibm/g11n/pipeline/resfilter/impl/JsonResource.java:137-175 | encoding a member under a path gives the path extended by that member |
| JsonResource.EncodeTopNode | gp-res-filter/src/main/java/com/ibm/g11n/pipeline/resfilter/impl/JsonResource.java:150-153 | a first-level inner node's key is the root mark followed by its step |
| JsonResource.PathRoundTrip | gp-res-filter/src/main/java/com/ibm/g11n/pipeline/resfilter/impl/JsonResource.java:137-301 | splitting the key of any non-empty path of readable steps gives back that path's pieces |
| JsonResource.PathKeyIsJsonPath | gp-res-filter/src/main/java/com/ibm/g11n/pipeline/resfilter/impl/JsonResource.java:124 | such a key matches `USE_JSONPATH_PATTERN` |
| JsonResource.PathTokens | gp-res-filter/src/main/java/com/ibm/g11n/pipeline/resfilter/impl/JsonResource.java:278-301 | the tokens of a path's text give that path's pieces |
| JsonResource.BracketedTokens | gp-res-filter/src/main/java/com/ibm/g11n/pipeline/resfilter/impl/JsonResource.java:258-261 | a bracketed member reads back as its own key |
| JsonResource.IndexTokens | gp-res-filter/src/main/java/com/ibm/g11n/pipeline/resfilter/impl/JsonResource.java:262-263 | an array index reads back as an array piece |
| JsonResource.PlainTokens | gp-res-filter/src/main/java/com/ibm/g11n/pipeline/resfilter/impl/JsonResource.java:264-270 | a dotted member reads back as its own key |
| JsonResource.UnescapeEscape | gp-res-filter/src/main/java/com/ibm/g11n/pipeline/resfilter/impl/JsonResource.java:260 | unescaping undoes escaping for a key without the escape text |
| JsonResource.Numbered | gp-res-filter/src/main/java/com/ibm/g11n/pipeline/resfilter/impl/JsonResource.java:96-114 | one resource string per pair |
| JsonResource.NumberedConsecutively | gp-res-filter/src/main/java/com/ibm/g11n/pipeline/resfilter/impl/JsonResource.java:96-114 | the strings keep the pairs' keys and values and take consecutive sequence numbers after the start |
| JsonResource.NumberedAppend | gp-res-filter/src/main/java/com/ibm/g11n/pipeline/resfilter/impl/JsonResource.java:85-117 | numbering two runs one after the other numbers their concatenation |
| JsonResource.NonStringRejected | gp-res-filter/src/main/java/com/ibm/g11n/pipeline/resfilter/impl/JsonResource.java:107-108 | a member holding a number, a boolean or null makes the parse fail |
| JsonResource.FailurePropagates | gp-res-filter/src/main/java/com/ibm/g11n/pipeline/resfilter/impl/JsonResource.java:85-117 | a failing member makes its whole object fail |
| JsonResource.AddBundleStrings | gp-res-filter/src/main/java/com/ibm/g11n/pipeline/resfilter/impl/JsonResource.java:83-118 | the builder gets the object's strings numbered from the start, or the failure is reported; the returned number is the last one used |
| JsonResource.AddMember | gp-res-filter/src/main/java/com/ibm/g11n/pipeline/resfilter/impl/JsonResource.java:86-115 | one member adds its strings numbered from the start |
| JsonResource.AddElements | gp-res-filter/src/main/java/com/ibm/g11n/pipeline/resfilter/impl/JsonResource.java:91-106 | an array adds its elements' strings numbered from the start |
| JsonResource.AddArrayElement | gp-res-filter/src/main/java/com/ibm/g11n/pipeline/resfilter/impl/JsonResource.java:94-105 | one pass of the array loop: element `j` under the key `prefix[j]` adds the next pairs of the array walk, numbered on, and leaves notes and language code alone |
| JsonResource.AddElement | gp-res-filter/src/main/java/com/ibm/g11n/pipeline/resfilter/impl/JsonResource.java:94-105 | one array element adds its strings numbered from the start |
| JsonResource.Parse | gp-res-filter/src/main/java/com/ibm/g11n/pipeline/resfilter/impl/JsonResource.java:68-81 | IllegalResourceFormatException for a root that is no object; otherwise the failure of a member, or the bundle of all string leaves numbered from one |
| PotResource.ClosingFromIsLast | gp-res-filter/src/main/java/com/ibm/g11n/pipeline/resfilter/POTResource.java:258-266 | the backward search finds the last unescaped quote after the opening one, or reports that there is none |
| PotResource.BetweenQuotesIs | gp-res-filter/src/main/java/com/ibm/g11n/pipeline/resfilter/POTResource.java:250-269 | the message is absent exactly when no unescaped quote follows the first quote; otherwise it is the text between the first quote and the last unescaped one |
| PotResource.MessageNeedsTwoQuotes | gp-res-filter/src/main/java/com/ibm/g11n/pipeline/resfilter/POTResource.java:254-256 | a line with a message holds two distinct quotes |
| PotResource.ExtractMsgBetweenQuotes | gp-res-filter/src/main/java/com/ibm/g11n/pipeline/resfilter/POTResource.java:250-269 | the loop computes `BetweenQuotes`, as written or corrected |
| PotResource.QuotedLine | gp-res-filter/src/main/java/com/ibm/g11n/pipeline/resfilter/POTResource.java:250-269 | a quoted message whose closing quote is not escaped reads back whole |
| PotResource.MessageUpTo | gp-res-filter/src/main/java/com/ibm/g11n/pipeline/resfilter/POTResource.java:253-268 | with an unescaped last quote the message is the text between the first and the last quote |
| PotResource.AsWrittenEscapedBackslash | gp-res-filter/src/main/java/com/ibm/g11n/pipeline/resfilter/POTResource.java:259 | as written, a message ending in an escaped backslash is taken to end in an escaped quote and is lost |
| PotResource.CorrectedEscapedBackslash | gp-res-filter/src/main/java/com/ibm/g11n/pipeline/resfilter/POTResource.java:259 | counting the backslashes, the same message reads back whole |
| PotResource.ReadMessage | gp-res-filter/src/main/java/com/ibm/g11n/pipeline/resfilter/POTResource.java:210-248 | the loop computes `ExtractMessage`: the first line's message followed by those of the quote lines after it, read as the scanner reads the text of the following lines: cut again at U+0085, U+2028 and U+2029, the quote-token test reading the text on across them |
| PotResource.NextLineGlueEndsMessage | gp-res-filter/src/main/java/com/ibm/g11n/pipeline/resfilter/POTResource.java:231-232 | `msgid "x"` followed by the line `"a"` U+0085 `"b"` reads as `x`: the next token runs across U+0085, which is not white space, and `.` does not match it |
| PotResource.LineSeparatorEndsMessage | gp-res-filter/src/main/java/com/ibm/g11n/pipeline/resfilter/POTResource.java:229-235 | `msgid ""` followed by `"a` U+2028 `b"` reads as the empty message, and no string is kept |
| PotResource.ExtractMessageFrom | gp-res-filter/src/main/java/com/ibm/g11n/pipeline/resfilter/POTResource.java:210-248 | a first line holding a message gives that message followed by the continuation read from the scanner's lines of the text of the following lines |
| PotResource.ContinuationQuotedLines | gp-res-filter/src/main/java/com/ibm/g11n/pipeline/resfilter/POTResource.java:229-235 | the quoted lines `formatMessage` writes, read by the scanner, continue a message with the pieces joined |
| PotResource.QuotedPiecesRead | gp-res-filter/src/main/java/com/ibm/g11n/pipeline/resfilter/POTResource.java:305-340 | `""` followed by pieces in quotes reads as the pieces joined |
| PotResource.QuotedUnbroken | gp-res-filter/src/main/java/com/ibm/g11n/pipeline/resfilter/POTResource.java:324-340 | the text of quoted pieces without terminators is read by the scanner as those same lines |
| PotResource.ContinuationAt | gp-res-filter/src/main/java/com/ibm/g11n/pipeline/resfilter/POTResource.java:231-235 | the scanner's next line continues the message exactly when the next token of the remaining text starts with a quote and holds no line terminator, and the line holds a message |
| PotResource.PotStringsAt | gp-res-filter/src/main/java/com/ibm/g11n/pipeline/resfilter/POTResource.java:82-91 | from line `i` on, the strings are the one line `i` gives, if any, then those after it |
| PotResource.Messages | gp-res-filter/src/main/java/com/ibm/g11n/pipeline/resfilter/POTResource.java:82-83 | one message, or none, per line |
| PotResource.MessageAt | gp-res-filter/src/main/java/com/ibm/g11n/pipeline/resfilter/POTResource.java:82-83 | each line's message reads from that line and the lines after it |
| PotResource.PotStrings | gp-res-filter/src/main/java/com/ibm/g11n/pipeline/resfilter/POTResource.java:82-91 | no more strings than lines |
| PotResource.PotStringsKeep | gp-res-filter/src/main/java/com/ibm/g11n/pipeline/resfilter/POTResource.java:82-91 | the strings are those kept from each line's message |
| PotResource.PotStringsCons | gp-res-filter/src/main/java/com/ibm/g11n/pipeline/resfilter/POTResource.java:82-91 | the first line gives at most one string and the numbering continues after it |
| PotResource.PotStringsNumbered | gp-res-filter/src/main/java/com/ibm/g11n/pipeline/resfilter/POTResource.java:81-89 | the strings are numbered consecutively from the start and each key is its value |
| PotResource.PotStringsFromMsgids | gp-res-filter/src/main/java/com/ibm/g11n/pipeline/resfilter/POTResource.java:84-90 | every string comes from a msgid or msgid_plural line with a non-empty message |
| PotResource.YieldingLines | gp-res-filter/src/main/java/com/ibm/g11n/pipeline/resfilter/POTResource.java:82-91 | the lines that give strings are in increasing order |
| PotResource.PotStringsFromYieldingLines | gp-res-filter/src/main/java/com/ibm/g11n/pipeline/resfilter/POTResource.java:82-91 | the k-th string comes from the k-th such line, in order |
| PotResource.YieldingLinesComplete | gp-res-filter/src/main/java/com/ibm/g11n/pipeline/resfilter/POTResource.java:84-90 | every msgid or msgid_plural line with a non-empty message gives a string |
| PotResource.Parse | gp-res-filter/src/main/java/com/ibm/g11n/pipeline/resfilter/POTResource.java:71-95 | no stream gives no strings; otherwise `PotStrings` of the lines, numbered from one |
| PotResource.Run | gp-res-filter/src/main/java/com/ibm/g11n/pipeline/resfilter/POTResource.java:319-340 | the current line never starts after the previous boundary |
| PotResource.RunStep | gp-res-filter/src/main/java/com/ibm/g11n/pipeline/resfilter/POTResource.java:324-340 | each boundary extends the written lines by the pieces it emits and moves the start |
| PotResource.Quoted | gp-res-filter/src/main/java/com/ibm/g11n/pipeline/resfilter/POTResource.java:328-336 | one quoted line per piece |
| PotResource.WriteBoundary | gp-res-filter/src/main/java/com/ibm/g11n/pipeline/resfilter/POTResource.java:327-338 | one boundary appends its quoted pieces and moves the start |
| PotResource.FormatMessage | gp-res-filter/src/main/java/com/ibm/g11n/pipeline/resfilter/POTResource.java:287-342 | the loop computes `FormatLines`: a short message on the prefix line, a long one as an empty string then quoted pieces |
| PotResource.AsWrittenLosesTail | gp-res-filter/src/main/java/com/ibm/g11n/pipeline/resfilter/POTResource.java:327-332 | as written, when only the last boundary goes past the room, the text after the previous boundary is never written |
| PotResource.RunCovers | gp-res-filter/src/main/java/com/ibm/g11n/pipeline/resfilter/POTResource.java:324-340 | corrected, the lines written so far join to the message up to the current start |
| PotResource.CorrectedSegmentsCover | gp-res-filter/src/main/java/com/ibm/g11n/pipeline/resfilter/POTResource.java:324-340 | corrected, the pieces join back to the whole message |
| PotResource.FormatReadBack | gp-res-filter/src/main/java/com/ibm/g11n/pipeline/resfilter/POTResource.java:210-342 | corrected, a formatted message without backslashes or line terminators, after a prefix without quotes, reads back as itself when the lines after it continue no message |
| PotResource.ShortReadBack | gp-res-filter/src/main/java/com/ibm/g11n/pipeline/resfilter/POTResource.java:297-304 | a message on one line reads back |
| PotResource.LongReadBack | gp-res-filter/src/main/java/com/ibm/g11n/pipeline/resfilter/POTResource.java:305-340 | a message across continuation lines reads back |
| PotResource.IsQuoteLineTrim | gp-res-filter/src/main/java/com/ibm/g11n/pipeline/resfilter/POTResource.java:151 | a line continues the msgid exactly when, trimmed, it starts with a quote |
| PotResource.QuoteLinesEnd | gp-res-filter/src/main/java/com/ibm/g11n/pipeline/resfilter/POTResource.java:148-151 | the msgid block ends at or after its start and within the file |
| PotResource.QuoteLinesEndIs | gp-res-filter/src/main/java/com/ibm/g11n/pipeline/resfilter/POTResource.java:148-151 | every line of the block is a quote line, and the line after it is not |
| PotResource.BlankFromIs | gp-res-filter/src/main/java/com/ibm/g11n/pipeline/resfilter/POTResource.java:157-171 | the lines up to the blank line found are non-empty, and it is blank |
| PotResource.MergeStep | gp-res-filter/src/main/java/com/ibm/g11n/pipeline/resfilter/POTResource.java:141-183 | one round of the merge loop consumes at least one line and no more than there are |
| PotResource.EntryStep | gp-res-filter/src/main/java/com/ibm/g11n/pipeline/resfilter/POTResource.java:144-178 | one msgid entry consumes at least one line and no more than there are |
| PotResource.EntryCopies | gp-res-filter/src/main/java/com/ibm/g11n/pipeline/resfilter/POTResource.java:154-164 | an entry without translation is copied unchanged |
| PotResource.StepCopies | gp-res-filter/src/main/java/com/ibm/g11n/pipeline/resfilter/POTResource.java:141-183 | with no translations every round copies its lines |
| PotResource.MergeUntranslated | gp-res-filter/src/main/java/com/ibm/g11n/pipeline/resfilter/POTResource.java:129-186 | with no translations a merge that does not throw copies the base file |
| PotResource.MergeWithoutMsgid | gp-res-filter/src/main/java/com/ibm/g11n/pipeline/resfilter/POTResource.java:179-182 | a file without msgid lines is copied unchanged |
| PotResource.MergeThrowsAtEnd | gp-res-filter/src/main/java/com/ibm/g11n/pipeline/resfilter/POTResource.java:151-154 | a merge fails only with NullPointerException, when a msgid block runs to the end of the file |
| PotResource.StepThrows | gp-res-filter/src/main/java/com/ibm/g11n/pipeline/resfilter/POTResource.java:151-154 | an entry throws exactly when its msgid block runs to the end of the file |
| PotResource.TranslatedLinesRead | gp-res-filter/src/main/java/com/ibm/g11n/pipeline/resfilter/POTResource.java:166-168 | the new msgstr lines read back as the bundle's value |
| PotResource.SkipQuoteLines | gp-res-filter/src/main/java/com/ibm/g11n/pipeline/resfilter/POTResource.java:148-151 | the loop computes `QuoteLinesEnd` |
| PotResource.SkipToBlank | gp-res-filter/src/main/java/com/ibm/g11n/pipeline/resfilter/POTResource.java:157-171 | the loop computes `BlankFrom` |
| PotResource.WriteEntry | gp-res-filter/src/main/java/com/ibm/g11n/pipeline/resfilter/POTResource.java:154-176 | writes the msgid block then the copied or the new msgstr |
| PotResource.MergeRound | gp-res-filter/src/main/java/com/ibm/g11n/pipeline/resfilter/POTResource.java:142-182 | one iteration computes `MergeStep` |
| PotResource.EntryRound | gp-res-filter/src/main/java/com/ibm/g11n/pipeline/resfilter/POTResource.java:145-177 | the msgid branch computes `EntryStep` |
| PotResource.EntryRoundAt | gp-res-filter/src/main/java/com/ibm/g11n/pipeline/resfilter/POTResource.java:153-177 | the msgstr part computes `EntryAt` |
| PotResource.Merge | gp-res-filter/src/main/java/com/ibm/g11n/pipeline/resfilter/POTResource.java:129-186 | the loop computes `MergedFrom` with the data's key-to-value map |
| MultiBundleCsv.GroupedRecords | csv-res-filter/src/main/java/com/ibm/g11n/pipeline/MultiBundleCSVFilter.java:54-65 | a module gets strings exactly when it has records; they are its records' keys and values in order, numbered from one |
| MultiBundleCsv.Parse | csv-res-filter/src/main/java/com/ibm/g11n/pipeline/MultiBundleCSVFilter.java:48-75 | one bundle per module that has records, holding the grouped strings, with no notes and no embedded language code |
| MultiBundleCsv.AddToBuilder | csv-res-filter/src/main/java/com/ibm/g11n/pipeline/MultiBundleCSVFilter.java:59-64 | adding a record uses its module's builder or a new one, and the builders then hold the strings with that record added |
| MultiBundleCsv.AddToExisting | csv-res-filter/src/main/java/com/ibm/g11n/pipeline/MultiBundleCSVFilter.java:64 | an existing builder takes the record as its next string |
| MultiBundleCsv.BuildAll | csv-res-filter/src/main/java/com/ibm/g11n/pipeline/MultiBundleCSVFilter.java:67-72 | every builder is built into a bundle of its strings |
| MultiBundleCsv.StringsOf | csv-res-filter/src/main/java/com/ibm/g11n/pipeline/MultiBundleCSVFilter.java:86-89 | one entry per module of the map |
| MultiBundleCsv.LeastExists | csv-res-filter/src/main/java/com/ibm/g11n/pipeline/MultiBundleCSVFilter.java:84 | a non-empty set of module names has a least one |
| MultiBundleCsv.LeastUnique | csv-res-filter/src/main/java/com/ibm/g11n/pipeline/MultiBundleCSVFilter.java:84 | the least module name is unique |
| MultiBundleCsv.SortedModules | csv-res-filter/src/main/java/com/ibm/g11n/pipeline/MultiBundleCSVFilter.java:84-86 | the sorted modules are all in the set |
| MultiBundleCsv.SortedModulesAscending | csv-res-filter/src/main/java/com/ibm/g11n/pipeline/MultiBundleCSVFilter.java:84-86 | the modules are in strictly ascending order and are exactly the set |
| MultiBundleCsv.SortedModulesLeast | csv-res-filter/src/main/java/com/ibm/g11n/pipeline/MultiBundleCSVFilter.java:84-86 | the least module comes first |
| MultiBundleCsv.SortedKeys | csv-res-filter/src/main/java/com/ibm/g11n/pipeline/MultiBundleCSVFilter.java:84 | the loop computes `SortedModules` |
| MultiBundleCsv.Write | csv-res-filter/src/main/java/com/ibm/g11n/pipeline/MultiBundleCSVFilter.java:78-94 | the records of the modules in sorted order, each module's strings sorted, or its exception |
| MultiBundleCsv.WriteModule | csv-res-filter/src/main/java/com/ibm/g11n/pipeline/MultiBundleCSVFilter.java:87-91 | one module's records, or NullPointerException when its bundle has no strings |
| MultiBundleCsv.PrintRecords | csv-res-filter/src/main/java/com/ibm/g11n/pipeline/MultiBundleCSVFilter.java:89-91 | one record per string, in order |
| MultiBundleCsv.WrittenFails | csv-res-filter/src/main/java/com/ibm/g11n/pipeline/MultiBundleCSVFilter.java:89 | writing fails exactly when some bundle has no strings, and then with NullPointerException |
| MultiBundleCsv.WrittenRecordsOf | csv-res-filter/src/main/java/com/ibm/g11n/pipeline/MultiBundleCSVFilter.java:86-92 | a module's written records are its sorted strings and an absent module writes none |
| MultiBundleCsv.WriteThenParse | csv-res-filter/src/main/java/com/ibm/g11n/pipeline/MultiBundleCSVFilter.java:48-94 | parsing what write produces gives back, for each module with strings, its sorted strings renumbered from one |
| MultiBundleCsv.WrittenInOrder | csv-res-filter/src/main/java/com/ibm/g11n/pipeline/MultiBundleCSVFilter.java:84-92 | the written records are ordered by module |
| MultiBundleCsv.WrittenModules | csv-res-filter/src/main/java/com/ibm/g11n/pipeline/MultiBundleCSVFilter.java:86-90 | every written record belongs to one of the modules |
| MultiBundleCsv.Present | csv-res-filter/src/main/java/com/ibm/g11n/pipeline/MultiBundleCSVFilter.java:101-108 | the modules whose bundles have strings, with those strings |
| MultiBundleCsv.KvMaps | csv-res-filter/src/main/java/com/ibm/g11n/pipeline/MultiBundleCSVFilter.java:100-108 | one key-to-value map per module |
| MultiBundleCsv.Merge | csv-res-filter/src/main/java/com/ibm/g11n/pipeline/MultiBundleCSVFilter.java:96-128 | NullPointerException exactly when some bundle has no strings; otherwise one record per base record, each merged |
| MultiBundleCsv.KvMapsOf | csv-res-filter/src/main/java/com/ibm/g11n/pipeline/MultiBundleCSVFilter.java:100-108 | the loop computes the key-to-value maps, or fails with NullPointerException exactly when a bundle has no strings |
| MultiBundleCsv.MergedValue | csv-res-filter/src/main/java/com/ibm/g11n/pipeline/MultiBundleCSVFilter.java:114-125 | a merged record keeps its module and key, and takes the value of the last string with its key in its module's bundle, else keeps its value |
| MergeTranslations.Classify | gp-cli/src/main/java/com/ibm/g11n/pipeline/tools/cli/MergeTranslationsCmd.java:176-273 | the log entry keeps the work and master summaries; it has a resolved entry exactly for an update, and that entry carries the work translation |
| MergeTranslations.ClassifyRules | gp-cli/src/main/java/com/ibm/g11n/pipeline/tools/cli/MergeTranslationsCmd.java:176-265 | each of the seven categories holds exactly under its condition on the master entry, the three matches and the two flags |
| MergeTranslations.ReviewedOnlyOnExactSource | gp-cli/src/main/java/com/ibm/g11n/pipeline/tools/cli/MergeTranslationsCmd.java:196-265 | an update is written as reviewed exactly when the sources are equal or the master was reviewed |
| MergeTranslations.Infos | gp-cli/src/main/java/com/ibm/g11n/pipeline/tools/cli/MergeTranslationsCmd.java:163-274 | one log entry per work key |
| MergeTranslations.MergeEntries | gp-cli/src/main/java/com/ibm/g11n/pipeline/tools/cli/MergeTranslationsCmd.java:154-274 | the updated and skipped maps split the work keys by category, the change sets match the updates, and the counters count the categories and add up to the number of work entries |
| MergeTranslations.InfosByClassify | gp-cli/src/main/java/com/ibm/g11n/pipeline/tools/cli/MergeTranslationsCmd.java:163-274 | the loop's classification is `Classify` |
| MergeTranslations.LogEntries | gp-cli/src/main/java/com/ibm/g11n/pipeline/tools/cli/MergeTranslationsCmd.java:163-274 | the loop logs every work key once and counts every category |
| MergeTranslations.Visit | gp-cli/src/main/java/com/ibm/g11n/pipeline/tools/cli/MergeTranslationsCmd.java:164-273 | one entry goes into the updated map with its change set, or into the skipped map, and bumps its category's counter |
| MergeTranslations.TallyCounts | gp-cli/src/main/java/com/ibm/g11n/pipeline/tools/cli/MergeTranslationsCmd.java:155-274 | counting along the visit order gives the counts of the visited keys |
| MergeTranslations.TallyTotal | gp-cli/src/main/java/com/ibm/g11n/pipeline/tools/cli/MergeTranslationsCmd.java:155-274 | the counters add up to the number of keys visited |
| MergeTranslations.LoggedStep | gp-cli/src/main/java/com/ibm/g11n/pipeline/tools/cli/MergeTranslationsCmd.java:164-273 | visiting one more key keeps the logs consistent with the classification |
| MergeTranslations.Apply | gp-cli/src/main/java/com/ibm/g11n/pipeline/tools/cli/MergeTranslationsCmd.java:287-294 | applying the change sets keeps the master's keys |
| MergeTranslations.UpdateSettles | gp-cli/src/main/java/com/ibm/g11n/pipeline/tools/cli/MergeTranslationsCmd.java:192-273 | once an update is written to the master, the same work entry is no longer an update |
| MergeTranslations.MergeTwiceChangesNothing | gp-cli/src/main/java/com/ibm/g11n/pipeline/tools/cli/MergeTranslationsCmd.java:163-274 | running the merge again on the updated master changes nothing |
| MergeTranslations.FlagsOnlyAddUpdates | gp-cli/src/main/java/com/ibm/g11n/pipeline/tools/cli/MergeTranslationsCmd.java:196-238 | turning on update-always or includes-reviewed never takes an update away |
| JavaText.IndexOf | gp-res-filter/src/main/java/com/ibm/g11n/pipeline/resfilter/POTResource.java:253 | `indexOf`: the first position of the code unit, or -1 exactly when it does not occur |
| JavaText.LastIndexOf | gp-res-filter/src/main/java/com/ibm/g11n/pipeline/resfilter/POTResource.java:254 | `lastIndexOf`: the last position of the code unit, or -1 exactly when it does not occur |
| JavaText.LastIndexOfAt | gp-res-filter/src/main/java/com/ibm/g11n/pipeline/resfilter/POTResource.java:260 | `lastIndexOf` from a position: the last occurrence at or before it, or -1 |
| JavaText.Trim | gp-res-filter/src/main/java/com/ibm/g11n/pipeline/resfilter/impl/JavaPropertiesResource.java:323 | `trim`: the text between the leading and the trailing control and space code units; empty exactly when all are |
| JavaText.TrimStartCount | gp-res-filter/src/main/java/com/ibm/g11n/pipeline/resfilter/POTResource.java:151 | the leading code units `trim` removes |
| JavaText.TrimEndCount | gp-res-filter/src/main/java/com/ibm/g11n/pipeline/resfilter/impl/JavaPropertiesResource.java:323 | the trailing code units `trim` removes |
| JavaText.ReplaceChar | gp-ant-task/src/main/java/com/ibm/g11n/pipeline/ant/GPDownloadTask.java:288 | `replace` of one code unit: the same length, each occurrence replaced and every other code unit kept |
| JavaText.LeadingWhitespaceIs | gp-res-filter/src/main/java/com/ibm/g11n/pipeline/resfilter/impl/AmdJsResource.java:265 | the white space a scanner skips is the longest prefix of Java white space |
| JavaText.TokenLengthIs | gp-res-filter/src/main/java/com/ibm/g11n/pipeline/resfilter/impl/AmdJsResource.java:265 | a scanner token runs up to the next Java white space |
| JavaText.NextTokenIsToken | gp-res-filter/src/main/java/com/ibm/g11n/pipeline/resfilter/impl/AmdJsResource.java:265-269 | the next token a scanner sees is non-empty and holds no white space; there is none exactly when the rest of the text is all white space |
| JavaText.TokenBefore | gp-res-filter/src/main/java/com/ibm/g11n/pipeline/resfilter/impl/AmdJsResource.java:265 | a text that starts with a unit other than white space has a token: a prefix of it that ends before its first white space |
| JavaText.LineLength | gp-res-filter/src/main/java/com/ibm/g11n/pipeline/resfilter/POTResource.java:232 | the first line of a text ends at its first line terminator and holds none |
| JavaText.PieceLength | gp-res-filter/src/main/java/com/ibm/g11n/pipeline/resfilter/POTResource.java:232 | `nextLine` consumes the line and its terminator (both units of `\r\n`), at least one unit of a non-empty text, and all of the text when no terminator follows the line |
| JavaText.ScannerPieces | gp-res-filter/src/main/java/com/ibm/g11n/pipeline/resfilter/impl/AmdJsResource.java:247-248 | the scanner reads a text as a sequence of non-empty pieces, one per `nextLine` |
| JavaText.LineOf | gp-res-filter/src/main/java/com/ibm/g11n/pipeline/resfilter/impl/AmdJsResource.java:248 | the line `nextLine` returns holds no line terminator and lies within its piece |
| JavaText.ScannerPiecesKeep | gp-res-filter/src/main/java/com/ibm/g11n/pipeline/resfilter/impl/AmdJsResource.java:247-248 | the pieces join back to the whole text |
| JavaText.ScannerPiecesEnd | gp-res-filter/src/main/java/com/ibm/g11n/pipeline/resfilter/impl/AmdJsResource.java:247-248 | every piece but the last ends in a line terminator and is consumed whole |
| JavaText.ScannerPiecesAppend | gp-res-filter/src/main/java/com/ibm/g11n/pipeline/resfilter/POTResource.java:229-235 | after a line feed the scanner reads the rest of a text as it reads that rest alone |
| JavaText.LinePiece | gp-res-filter/src/main/java/com/ibm/g11n/pipeline/resfilter/POTResource.java:232 | a line without terminators followed by a line feed is one piece, whose line is that line |
| JavaText.TextPieces | gp-res-filter/src/main/java/com/ibm/g11n/pipeline/resfilter/POTResource.java:229-235 | the text of `readLine` lines holding no other terminator is read by the scanner as those same lines |
| JavaText.Hex4 | gp-res-filter/src/main/java/com/ibm/g11n/pipeline/resfilter/impl/JavaPropertiesResource.java:578-581 | `%04X`: four upper-case hexadecimal digits |
| JavaText.Hex4Value | gp-res-filter/src/main/java/com/ibm/g11n/pipeline/resfilter/impl/JavaPropertiesResource.java:578-581 | the four digits read back as the code unit |
| JavaText.HexDigit | gp-res-filter/src/main/java/com/ibm/g11n/pipeline/resfilter/impl/JavaPropertiesResource.java:578-581 | a digit whose value is the given number |
| JavaText.ParseIntHex | gp-res-filter/src/main/java/com/ibm/g11n/pipeline/resfilter/impl/JavaPropertiesResource.java:626 | `Integer.parseInt(.., 16)` succeeds exactly for hex digits, optionally after one sign |
| JavaText.ToChar | gp-res-filter/src/main/java/com/ibm/g11n/pipeline/resfilter/impl/JavaPropertiesResource.java:626 | the `(char)` cast leaves a code unit's value unchanged |
| DownloadTasks.ParentPath | gp-ant-task/src/main/java/com/ibm/g11n/pipeline/ant/GPBaseTask.java:238-241 | `getParentFile`: a proper prefix of the path, or none |
| DownloadTasks.FileName | gp-ant-task/src/main/java/com/ibm/g11n/pipeline/ant/GPBaseTask.java:243 | `getName`: the end of the path, holding no separator, starting right after a separator or at the start of the path |
| DownloadTasks.PackageName | gp-ant-task/src/main/java/com/ibm/g11n/pipeline/ant/GPBaseTask.java:239-241 | the parent path with separators made dots: no separator is left |
| DownloadTasks.BaseName | gp-ant-task/src/main/java/com/ibm/g11n/pipeline/ant/GPBaseTask.java:245-248 | the file name up to its first dot, or all of it when it has none; the result holds no dot |
| DownloadTasks.PathToBundleId | gp-ant-task/src/main/java/com/ibm/g11n/pipeline/ant/GPBaseTask.java:237-253 | the ID starts with the package, then a dot for a Java bundle and a hyphen otherwise; a Java ID has no dot after the package, any other ends with the whole file name |
| DownloadTasks.JavaBundleIdSplits | gp-ant-task/src/main/java/com/ibm/g11n/pipeline/ant/GPBaseTask.java:244-249 | a Java bundle ID splits at its last dot back into the package and the base name |
| DownloadTasks.OtherBundleIdEndsWithFileName | gp-ant-task/src/main/java/com/ibm/g11n/pipeline/ant/GPBaseTask.java:252 | a non-Java bundle ID ends with a hyphen and the file name |
| DownloadTasks.JavaBundleIdExample | gp-ant-task/src/main/java/com/ibm/g11n/pipeline/ant/GPBaseTask.java:237-253 | `ibm/Msg.json` gives `ibm.Msg` |
| DownloadTasks.TopLevelJavaIdStartsWithDot | gp-ant-task/src/main/java/com/ibm/g11n/pipeline/ant/GPBaseTask.java:240-249 | a file without a parent gives a Java bundle ID that starts with a dot |
| DownloadTasks.TaskTargetsAre | gp-ant-task/src/main/java/com/ibm/g11n/pipeline/ant/GPBaseTask.java:262-267 | the task's target languages are exactly those listed other than the source language |
| DownloadTasks.SourceLanguage | gp-ant-task/src/main/java/com/ibm/g11n/pipeline/ant/GPBaseTask.java:257-260 | the configured source language, else `en` |
| DownloadTasks.CollectTaskTargets | gp-ant-task/src/main/java/com/ibm/g11n/pipeline/ant/GPBaseTask.java:262-267 | the loop computes `TaskTargets` |
| DownloadTasks.ResolveTargetLanguages | gp-ant-task/src/main/java/com/ibm/g11n/pipeline/ant/GPBaseTask.java:255-284 | computes `ResolvedTargets`: configured targets, else the task's, else the service's, with BuildException on a service error |
| DownloadTasks.ConfiguredTargetsWin | gp-ant-task/src/main/java/com/ibm/g11n/pipeline/ant/GPBaseTask.java:256-261 | non-empty configured targets are used as they are |
| DownloadTasks.TaskTargetsExcludeSource | gp-ant-task/src/main/java/com/ibm/g11n/pipeline/ant/GPBaseTask.java:261-269 | without configured targets, a task language other than the source gives the listed languages without the source |
| DownloadTasks.EmbeddedLanguageId | gp-ant-task/src/main/java/com/ibm/g11n/pipeline/ant/GPDownloadTask.java:296-305 | the mapped language ID when the map has the tag, else the tag |
| DownloadTasks.LanguageId | gp-ant-task/src/main/java/com/ibm/g11n/pipeline/ant/GPDownloadTask.java:276-294 | the same length as the mapped ID; unchanged in BCP 47 style, free of hyphens in underscore style |
| DownloadTasks.UnderscoreStyleChangesOnlyHyphens | gp-ant-task/src/main/java/com/ibm/g11n/pipeline/ant/GPDownloadTask.java:286-287 | underscore style turns each hyphen into an underscore and keeps every other code unit |
| DownloadTasks.UnderscoreStyleReadsBack | gp-ant-task/src/main/java/com/ibm/g11n/pipeline/ant/GPDownloadTask.java:286-287 | for an ID without underscores, underscore style reads back to the BCP 47 ID |
| DownloadTasks.UnderscoreExample | gp-ant-task/src/main/java/com/ibm/g11n/pipeline/ant/GPDownloadTask.java:286-287 | `zh-Hant` gives `zh_Hant` |
| DownloadTasks.ParentFile | gp-ant-task/src/main/java/com/ibm/g11n/pipeline/ant/GPDownloadTask.java:192-211 | a path has a parent exactly when it has two components, and it is the path without its last |
| DownloadTasks.Child | gp-ant-task/src/main/java/com/ibm/g11n/pipeline/ant/GPDownloadTask.java:201-213 | `new File(dir, name)` ends with the name and its parent is the directory |
| DownloadTasks.SuffixedName | gp-ant-task/src/main/java/com/ibm/g11n/pipeline/ant/GPDownloadTask.java:193-200 | the suffixed name is one underscore and the language ID longer |
| DownloadTasks.SuffixedNameReadsBack | gp-ant-task/src/main/java/com/ibm/g11n/pipeline/ant/GPDownloadTask.java:193-200 | the language ID sits after an underscore before the extension, removing it gives the name back, and the extension stays last |
| DownloadTasks.OutputFile | gp-ant-task/src/main/java/com/ibm/g11n/pipeline/ant/GPDownloadTask.java:190-215 | the suffix and subdirectory layouts always give a file |
| DownloadTasks.OutputFilePlaces | gp-ant-task/src/main/java/com/ibm/g11n/pipeline/ant/GPDownloadTask.java:190-215 | the file sits beside the source with a suffix, in a language subdirectory, or in a language directory beside the source's directory |
| DownloadTasks.OutputFileName | gp-ant-task/src/main/java/com/ibm/g11n/pipeline/ant/GPDownloadTask.java:190-215 | the file's name is the suffixed name, or the source name inside the language's directory |
| DownloadTasks.LanguageDirNeedsParent | gp-ant-task/src/main/java/com/ibm/g11n/pipeline/ant/GPDownloadTask.java:211-213 | the language-directory layout throws NullPointerException for a source with no parent; for one with a parent but no grandparent, the file goes in a directory named by the ID alone |
| DownloadTasks.ExportPlan | gp-ant-task/src/main/java/com/ibm/g11n/pipeline/ant/GPDownloadTask.java:188-273 | the plan fails, with NullPointerException, exactly when the output file cannot be resolved, or when it is not skipped and has no parent directory to create |
| DownloadTasks.ExportPlanNeedsParent | gp-ant-task/src/main/java/com/ibm/g11n/pipeline/ant/GPDownloadTask.java:190-238 | the plan fails exactly for the language-directory layout on a source path of fewer than two components, and for the suffix layout on such a path when the file is not skipped |
| DownloadTasks.ExportPlanDecides | gp-ant-task/src/main/java/com/ibm/g11n/pipeline/ant/GPDownloadTask.java:224-273 | an existing file is skipped exactly when overwrite is off; otherwise the export writes that file, which has a parent directory, with the option's review, fallback and merge flags and the embedded ID |
| DownloadTasks.Fetched | gp-ant-task/src/main/java/com/ibm/g11n/pipeline/ant/GPDownloadTask.java:349-376 | a fetched string keeps its key |
| DownloadTasks.FetchedCases | gp-ant-task/src/main/java/com/ibm/g11n/pipeline/ant/GPDownloadTask.java:352-376 | an entry is kept exactly when it has a usable value or a fallback source value; the value is the translation when usable, else the source value |
| DownloadTasks.DownloadsStep | gp-ant-task/src/main/java/com/ibm/g11n/pipeline/ant/GPDownloadTask.java:349-377 | fetching one more entry keeps the strings equal to the fetched entries so far |
| DownloadTasks.GetBundle | gp-ant-task/src/main/java/com/ibm/g11n/pipeline/ant/GPDownloadTask.java:342-382 | the bundle has the embedded language ID, no notes, and one string per entry kept by `Fetched` |
| PropertiesLines.TrailingBackslashes | gp-res-filter/src/main/java/com/ibm/g11n/pipeline/resfilter/impl/JavaPropertiesResource.java:197-206 | the run of trailing backslashes is never longer than the line |
| PropertiesLines.Joined | gp-res-filter/src/main/java/com/ibm/g11n/pipeline/resfilter/impl/JavaPropertiesResource.java:160-169 | joining continuation lines never consumes more lines than remain |
| PropertiesLines.JoinedNext | gp-res-filter/src/main/java/com/ibm/g11n/pipeline/resfilter/impl/JavaPropertiesResource.java:160-169 | a continued line loses its final backslash and takes the next line without its leading white space |
| PropertiesLines.ParsedLine | gp-res-filter/src/main/java/com/ibm/g11n/pipeline/resfilter/impl/JavaPropertiesResource.java:284-328 | as written: an entry read from one logical line carries no notes |
| PropertiesLines.ParsedProperty | gp-res-filter/src/main/java/com/ibm/g11n/pipeline/resfilter/impl/JavaPropertiesResource.java:284-328 | corrected reading: an entry read from one logical line carries no notes |
| PropertiesParse.Step | gp-res-filter/src/main/java/com/ibm/g11n/pipeline/resfilter/impl/JavaPropertiesResource.java:127-179 | one round of the read loop consumes at least one line and no more than remain |
| PropertiesParse.EntryRound | gp-res-filter/src/main/java/com/ibm/g11n/pipeline/resfilter/impl/JavaPropertiesResource.java:156-178 | an entry round consumes its first line and at most all continuation lines |
| PropertiesParse.EntryPut | gp-res-filter/src/main/java/com/ibm/g11n/pipeline/resfilter/impl/JavaPropertiesResource.java:170-178 | putting an entry consumes the logical line's physical lines |
| PropertiesParse.PutEntry | gp-res-filter/src/main/java/com/ibm/g11n/pipeline/resfilter/impl/JavaPropertiesResource.java:170-178 | computes `EntryPut`: parses the logical line, converts its quotes and records it |
| PropertiesMerge.GroupAsJoined | gp-res-filter/src/main/java/com/ibm/g11n/pipeline/resfilter/impl/JavaPropertiesResource.java:969-981 | corrected rule: merge's logical line and its line count are parse's continuation join |
| PropertiesMerge.EmitRound | gp-res-filter/src/main/java/com/ibm/g11n/pipeline/resfilter/impl/JavaPropertiesResource.java:984-1008 | writing one logical line advances the merge output by exactly that line's output, or fails as the merge does |
| PropertiesQuotes.DoubleAt | gp-res-filter/src/main/java/com/ibm/g11n/pipeline/resfilter/impl/JavaPropertiesResource.java:888-907 | one quote of the `ConvertSingleQuote` loop keeps the written output on the way to the doubled result |
| PropertiesQuotes.CopyRestDoubled | gp-res-filter/src/main/java/com/ibm/g11n/pipeline/resfilter/impl/JavaPropertiesResource.java:910-919 | once no quote remains, copying the rest completes the doubled result |
| PropertiesQuotes.UndoubleAt | gp-res-filter/src/main/java/com/ibm/g11n/pipeline/resfilter/impl/JavaPropertiesResource.java:783-810 | one quote of the `ConvertDoubleSingleQuote` loop keeps the written output on the way to the undoubled result |
| PropertiesQuotes.EmitUnquoted | gp-res-filter/src/main/java/com/ibm/g11n/pipeline/resfilter/impl/JavaPropertiesResource.java:796-808 | a quote outside braces is halved when doubled and copied otherwise |
| PropertiesQuotes.CopyRestUndoubled | gp-res-filter/src/main/java/com/ibm/g11n/pipeline/resfilter/impl/JavaPropertiesResource.java:811-820 | once no quote remains, copying the rest completes the undoubled result |
| PropertiesPrint.Wrapped | gp-res-filter/src/main/java/com/ibm/g11n/pipeline/resfilter/impl/JavaPropertiesResource.java:402-435 | wrapping keeps at least one line and never empties the key line |
| PropertiesRoundTrip.ReadBack | gp-res-filter/src/main/java/com/ibm/g11n/pipeline/resfilter/impl/JavaPropertiesResource.java:117-236 | one string read back per string written |
| PropertiesEscape.EscapedRunPrintable | gp-res-filter/src/main/java/com/ibm/g11n/pipeline/resfilter/impl/JavaPropertiesResource.java:500-557 | without UTF-8, escaping a run gives printable ASCII |
| PropertiesEscape.KeyRunProtectsSpaces | gp-res-filter/src/main/java/com/ibm/g11n/pipeline/resfilter/impl/JavaPropertiesResource.java:534-540 | in a key run every space is escaped, so the run cannot start with a bare space |
| PropertiesEscape.SpacelessRunsAgree | gp-res-filter/src/main/java/com/ibm/g11n/pipeline/resfilter/impl/JavaPropertiesResource.java:479-540 | without spaces, key and value escaping agree |
| PropertiesEscape.UnicodeEscapeReadBack | gp-res-filter/src/main/java/com/ibm/g11n/pipeline/resfilter/impl/JavaPropertiesResource.java:691-720 | a \\u escape of a unit reads back as that unit in both readings |
| ApproximateMatching.ProcessText | gp-cli/src/main/java/com/ibm/g11n/pipeline/tools/cli/ApproximateMatcher.java:29-36 | the processed text is never longer than the case-folded text |
| ApproximateMatching.CollapseRuns | gp-cli/src/main/java/com/ibm/g11n/pipeline/tools/cli/ApproximateMatcher.java:35 | collapsing runs never lengthens the text |
| LanguageBundles.InsertedSorted | gp-res-filter/src/main/java/com/ibm/g11n/pipeline/resfilter/LanguageBundle.java:99-103 | inserting a string at the place the comparator gives keeps the list sorted |
| LanguageBundles.InsertAt | gp-res-filter/src/main/java/com/ibm/g11n/pipeline/resfilter/LanguageBundle.java:99-103 | the insertion scan stops after every string not above the new one and before the first one above it |
| PotResource.BackslashesBefore | gp-res-filter/src/main/java/com/ibm/g11n/pipeline/resfilter/POTResource.java:259 | the run of backslashes before a position lies within the text before it |
| PotResource.ClosingFrom | gp-res-filter/src/main/java/com/ibm/g11n/pipeline/resfilter/POTResource.java:258-266 | the backward search finds a quote after the opening one, or -1 |
| PotResource.Kept | gp-res-filter/src/main/java/com/ibm/g11n/pipeline/resfilter/POTResource.java:84-90 | a line gives at most one string |
| PotResource.Keep | gp-res-filter/src/main/java/com/ibm/g11n/pipeline/resfilter/POTResource.java:82-91 | no more strings than lines |
| PotResource.BlankFrom | gp-res-filter/src/main/java/com/ibm/g11n/pipeline/resfilter/POTResource.java:157-171 | the search for a blank line stays within the file |
| PotResource.EntryAt | gp-res-filter/src/main/java/com/ibm/g11n/pipeline/resfilter/POTResource.java:153-177 | the msgstr part of an entry consumes at least one line and no more than remain |
| PotResource.RunQuiet | gp-res-filter/src/main/java/com/ibm/g11n/pipeline/resfilter/POTResource.java:327-332 | as long as every boundary but the last fits, the loop writes nothing before the last boundary |
| AmdJsMerge.TabPrefixLength | gp-res-filter/src/main/java/com/ibm/g11n/pipeline/resfilter/impl/AmdJsResource.java:431-438 | the tab prefix lies within the line |
| AmdJsMerge.LeadingRegexSpaces | gp-res-filter/src/main/java/com/ibm/g11n/pipeline/resfilter/impl/AmdJsResource.java:59 | the leading white space lies within the line |
| AmdJsMerge.ClosingQuote | gp-res-filter/src/main/java/com/ibm/g11n/pipeline/resfilter/impl/AmdJsResource.java:59 | a found closing quote lies at or after the start |
| JsonResource.Pieces | gp-res-filter/src/main/java/com/ibm/g11n/pipeline/resfilter/impl/JsonResource.java:251-276 | one piece per step of a path |
| JsonResource.WithoutDots | gp-res-filter/src/main/java/com/ibm/g11n/pipeline/resfilter/impl/JsonResource.java:265-269 | the token's text without its dots holds no dot |

## Left out

- LanguageBundles.LanguageBundle.GetSortedResourceStrings: sorts with the corrected comparator `ResourceStrings.Compare`, whereas LanguageBundle.java:101 sorts with the comparator as written (`ResourceStrings.CompareAsWritten`), which ties an unknown sequence number with 0 on the key; the two orders differ only there (`ResourceStrings.AsWrittenDiffersOnlyAtZero`).
- LanguageBundles.SortedCopySorted: states sortedness for the corrected comparator, for the same reason.
- ResourceStrings.Compare: the rule that a null key sorts lowest (gp-res-filter/src/main/java/com/ibm/g11n/pipeline/resfilter/ResourceString.java:113-131) is not modelled, because keys are never null in the model.
- ResourceStrings.ResourceString: carries `notes` and `sourceValue`, which this ResourceString.java does not declare, because LanguageBundleBuilder.java:56-68 passes them; `Equals` ignores them, as `equals` does.
- JavaText.ParseIntHex: accepts ASCII hexadecimal digits only, whereas `Integer.parseInt` also accepts other Unicode digits such as fullwidth ones.
- ApproximateMatching.ProcessText: classifies each UTF-16 unit as letter or number, whereas the Java pattern works on code points, so a supplementary letter is not kept whole.
- MergeTranslations.Classify: the NullPointerException for a null source or translation (MergeTranslationsCmd.java:192,226) is not modelled; values are never null in the model.
- Reading and writing streams, `Scanner`/`PrintWriter` loops and `BomInputStream`: files are sequences of lines or bytes. A line is what `readLine` returns. Where the source reads with a `Scanner` (the POT continuation lines and the AMD `merge`), the scanner reads text: `JavaText.ScannerPieces` cuts it where `Scanner.nextLine` does, and the `hasNext` token test reads the text on across line ends.
- PotResource.ReadMessage: the `IOException` that `reader.reset()` throws after the scanner has read more than the 1024 units marked by `reader.mark(1024)` (POTResource.java:222-240), for instance on a long continuation, is not modelled; the model reads continuations of any length.
- `BreakIterator` wrapping in `PropDef.print` and `formatMessage`: the break positions are a parameter constrained only to be increasing and in range.
- AmdJsMerge.FormatEntry: the line layout of `formatEntry` (AmdJsResource.java:305-388, used only by the AMD `merge`) is the free parameter `layout` of key, value and indents; the model states its two exceptions (the column guard, and an empty key or value reaching `substring(0, -1)` in `extractText`) but nothing about the text of a laid-out entry.
- ICU `MessagePattern` detection (AUTO mode of the quote conversion) and ICU case folding: parameters.
- Rhino parsing: the syntax tree is the `AmdJsExtract.Node` datatype.
- Gson parsing is the `JsonResource.JsonElement` datatype; the JSON `write`, which builds a Gson tree in place, is not modelled.
- The POT `write` (gp-res-filter/src/main/java/com/ibm/g11n/pipeline/resfilter/POTResource.java:97-127) and the AMD `write` (gp-res-filter/src/main/java/com/ibm/g11n/pipeline/resfilter/impl/AmdJsResource.java:216-233): for POT only the per-entry `formatMessage` is modelled; the AMD `write` prints `"key": "value"` lines directly and is not modelled.
- commons-csv parsing and printing: records are triples of module, key and value.
- The date comment written by the properties `write`: a parameter `stamp`.
- `ServiceClient` calls, CLI commands other than the merge rule, Maven mojos and the bodies of the Ant `execute` methods, including the building of the language map: their data are parameters.
- File paths: `DownloadTasks.ParentPath`, `FileName`, `PackageName` and `PathToBundleId` take a path as text with a separator code unit; `DownloadTasks.ParentFile`, `Child`, `OutputFile`, `ExportPlan` and their lemmas take a path as a sequence of components. No normalisation or file system access is modelled, and file existence is a parameter.
- `GPBaseTask.getSourceBundleFiles` (directory scanning) is not part of this model.
- The legacy filters in package `resfilter`, superseded by `impl`, and the Android, XLIFF, iOS, YAML and Globalize filters.
- The double-checked, volatile `gpClient` cache in GPBaseTask: concurrency.

## Findings

| source | as written | input that shows it | evidently intended | confidence | as-written member | corrected member |
|---|---|---|---|---|---|---|
| gp-res-filter/src/main/java/com/ibm/g11n/pipeline/resfilter/impl/JavaPropertiesResource.java:626 | `Integer.parseInt` reads the four units after `\u`, so a sign is accepted | `\u+041` unescapes to `A` | exactly four hexadecimal digits, otherwise IllegalArgumentException | not executed | PropertiesEscape.UnescapeAcceptsSignedDigits | PropertiesEscape.UnescapeRejectsMalformedUnicode |
| gp-res-filter/src/main/java/com/ibm/g11n/pipeline/resfilter/impl/JavaPropertiesResource.java:695-700 | the bounds test of `unescapeOnlyUnicode` is one short | a comment ending in `\uABC` throws StringIndexOutOfBoundsException | a short escape is copied unchanged | not executed | PropertiesEscape.UnicodeUnescapeFailsOnShortEscape | PropertiesEscape.UnicodeUnescapeTotal |
| gp-res-filter/src/main/java/com/ibm/g11n/pipeline/resfilter/impl/JavaPropertiesResource.java:323 | the key is `trim()`med after the separator search (also `PropertiesLines.EscapedSpaceLineAsWritten`) | `a\  = v` gives key `a`, though `print` writes the key `a ` (with a trailing space) that way | an escaped trailing space stays in the key | not executed | PropertiesLines.TrimDropsEscapedSpace | PropertiesLines.SingleLineRoundTrip |
| gp-res-filter/src/main/java/com/ibm/g11n/pipeline/resfilter/impl/JavaPropertiesResource.java:292-324 | after a space separator the separator index lands on the value's first unit | `k v` gives value empty | `k v` gives value `v` | not executed | PropertiesLines.SpaceSeparatorLosesValueStart | PropertiesLines.SingleLineRoundTrip |
| gp-res-filter/src/main/java/com/ibm/g11n/pipeline/resfilter/impl/JavaPropertiesResource.java:971 | merge continues a line on `endsWith("\\")` | the lines `a=x\`, `y\\`, `b=2`: the continuation line ends in an escaped backslash, so `b=2` is taken into `a`'s logical line | a line continues only on an odd run of backslashes, as `parse` does | not executed | PropertiesMerge.AsWrittenSwallowsNextEntry | PropertiesMerge.CorrectedKeepsNextEntry |
| gp-res-filter/src/main/java/com/ibm/g11n/pipeline/resfilter/impl/AmdJsResource.java:253-256 | the key is taken from `split(":")` | the line `"a:b":"x"` throws StringIndexOutOfBoundsException | the key ends at its closing quote | not executed | AmdJsMerge.AsWrittenColonKeyThrows | AmdJsMerge.CorrectedColonKeyReplaced |
| gp-res-filter/src/main/java/com/ibm/g11n/pipeline/resfilter/impl/AmdJsResource.java:274-278 | copying an unmatched entry reads lines until one ends in a comma | a last entry without a comma runs past `});` and throws NoSuchElementException | copying stops at the end of the entry | not executed | AmdJsMerge.AsWrittenCopyRunsOff | AmdJsMerge.CorrectedCopyKeepsLines |
| gp-res-filter/src/main/java/com/ibm/g11n/pipeline/resfilter/POTResource.java:259 | a quote counts as escaped when one backslash precedes it | `msgid "a\\"` gives no message | a quote is escaped only after an odd run of backslashes | not executed | PotResource.AsWrittenEscapedBackslash | PotResource.CorrectedEscapedBackslash |
| gp-res-filter/src/main/java/com/ibm/g11n/pipeline/resfilter/POTResource.java:327-332 | the last boundary either wraps or is written, never both | a message longer than the available width, whose breaks before the end all fit, loses the text after its last break | every unit of the message is written | not executed | PotResource.AsWrittenLosesTail | PotResource.CorrectedSegmentsCover |
| gp-res-filter/src/main/java/com/ibm/g11n/pipeline/resfilter/ResourceString.java:93-97 | an unknown number against 0 falls through to the key | a string numbered -1 and one numbered 0, the first with the lower key: each compares below the other | a total order: unknown numbers after all known ones | not executed | ResourceStrings.AsWrittenNotAntisymmetric | ResourceStrings.CompareAntisymmetric |
