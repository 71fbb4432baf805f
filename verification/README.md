# ResXManager mobile export, modelled in Dafny

This project models ResXManager's mobile export in `MobileExtensions.cs`. The export takes the resource catalog and writes one string file per locale: `values[-xx]/strings.xml` for Android and `xx.lproj/strings.xml` (or `Base.lproj/strings.xml`) for iOS. The model follows the code loop by loop and proves what the export delivers.

- `Catalog` holds the input. It is a sequence of resource entities. Each entity has its languages and its entries. Each entry has a key, its languages and a value lookup. A culture is an already-resolved two-letter code, or none for the neutral language.
- `Buckets` holds the dictionary of locale buckets. It is an insertion-ordered sequence of `Bucket(code, pairs)`. The module also defines the two operations that extraction performs on it:
  - `Declare`: the `ContainsKey`/`Add` registration of a locale.
  - `Put`: the indexer plus `Dictionary.Add` of a pair.
  - The module gives their semantics as a run of steps, where the first exception aborts the run. It proves when a run succeeds and what each bucket holds afterwards.
- `Extraction` specifies `ExtractData` as the flat list of steps its nested loops perform (`CatalogSteps`). `Extract(cat)` runs that list from no buckets. The method `ExtractData` and its three inner loops (`RegisterLanguages`, `AddEntries`, `AddEntryValues`) are imperative, and each is proved equal to running its part of the list. The lemmas then prove three things:
  - which buckets exist;
  - what each bucket holds;
  - exactly when extraction throws.
- `Serializers` holds the whitespace filter, the Android document model and the iOS line format.
  - The document model is the class `AndroidXmlResourcesModel`, whose `keyValues` list the serializer appends to.
  - `SerializeForAndroid` and `SerializeForiOS` are loops, proved to produce `AndroidDocument(dict)` and `IosText(dict)`.
  - Both texts are proved to read back as exactly the bucket's non-blank pairs, in order.
  - For iOS this holds only when keys contain no quote and no pair contains a carriage return; a concrete collision shows what goes wrong without that condition.
- `Export` holds the folder naming and the two orchestrators, `ExportAndroidFiles` and `ExportiOSFiles`. They do not write files. Each returns a `Report`:
  - the write attempts in order, each with its path, its content and whether the write went through;
  - the exception that ended the export, if any.
  
  The environment `Env` is a parameter. It says which folders cannot be created and which file writes throw.

Behaviour the model takes from the code:

- `Dictionary.Add` at `MobileExtensions.cs:74` throws on a key that the locale's bucket already holds; it does not overwrite. The indexer on the same line throws for a locale that no entity processed so far has declared. Both throws are outside any `try`, so the export ends before any file is written (`ExtractionFailed`).
- `Directory.CreateDirectory` (lines 30 and 47) sits outside the serializers' `try`. A folder that cannot be created therefore ends the export at that locale (`FolderCreationFailed`). The locales before it have already been written; the ones after it are not attempted.
- A file write that throws inside a serializer is caught and logged, so the export goes on with the next locale.
- Both platforms write a file named `strings.xml`, the iOS one included (line 49).

Two-letter ISO language names are lower-case, so no real culture has the code `"Base"`. Were one to have it, its iOS folder would be `Base.lproj`, the folder of the neutral locale (`IosBaseCollision`). The lemmas that exclude `"Base"` therefore exclude only a code the program cannot produce.

## Model

| member | source | states |
|---|---|---|
| Extraction.ExtractData | src/ResXManager.Model/MobileExtensions.cs:56-80 | The dictionary the method builds, or the exception it throws, is exactly the result of performing every registration and every Add in the code's loop order. |
| Extraction.RegisterLanguages | src/ResXManager.Model/MobileExtensions.cs:63-68 | Registering an entity's languages never throws. It gives a bucket to every locale that does not yet have one, in language order. |
| Extraction.AddEntries | src/ResXManager.Model/MobileExtensions.cs:70-76 | Adding an entity's entries equals performing, entry after entry, each entry's Adds, stopping at the first exception. |
| Extraction.AddEntryValues | src/ResXManager.Model/MobileExtensions.cs:72-75 | One Add per entry language, in order. An unregistered locale raises UnknownLocale. A key already in the bucket raises DuplicateKey. Otherwise the pair (key, value or "") is appended to that locale's bucket only. |
| Extraction.DeclareStepsOk | src/ResXManager.Model/MobileExtensions.cs:63-68 | The registration loop can never throw, whatever buckets exist. |
| Extraction.ExtractCodes | src/ResXManager.Model/MobileExtensions.cs:63-68 | After a successful extraction, a locale has a bucket if and only if some entity declares a language with that code ("neutral" for a null culture). A declared locale has a bucket even when it is empty. |
| Extraction.ExtractPairs | src/ResXManager.Model/MobileExtensions.cs:70-76 | After a successful extraction, a pair is in a locale's bucket if and only if some entry has a language with that code, the entry's key and, as value, its value for that language or "" when there is none. |
| Extraction.ExtractBucket | src/ResXManager.Model/MobileExtensions.cs:70-76 | Each bucket holds exactly the pairs added to its locale, in the order of the Adds. |
| Extraction.ExtractWellFormed | src/ResXManager.Model/MobileExtensions.cs:58-79 | After a successful extraction, the locale codes are distinct, and so are the keys within each bucket. |
| Extraction.ExtractOkIff | src/ResXManager.Model/MobileExtensions.cs:74 | Extraction succeeds if and only if every Add finds its locale registered by then and its key not yet in that bucket. |
| Extraction.UndeclaredLocaleAborts | src/ResXManager.Model/MobileExtensions.cs:74 | An entry language whose locale is declared by no entity up to and including the current one makes the extraction throw. |
| Extraction.DuplicateKeyAborts | src/ResXManager.Model/MobileExtensions.cs:74 | Two different (entity, entry, language) positions with the same key and the same locale code make the extraction throw. |
| Extraction.ExtractErrCause | src/ResXManager.Model/MobileExtensions.cs:74 | When the indexer throws, some entry uses a locale that no entity up to its own declares. When Dictionary.Add throws, two different positions add the same key to the same locale. |
| Extraction.ExtractErrIff | src/ResXManager.Model/MobileExtensions.cs:56-80 | Extraction throws if and only if some entry uses a locale no entity up to its own declares, or two different (entity, entry, language) positions add the same key to the same locale. |
| Extraction.CatalogPutIndex | src/ResXManager.Model/MobileExtensions.cs:70-76 | Every Add of the pass happens at the position of some (entity, entry, language) triple of the nested loops. |
| Extraction.CatalogStepsDeclares | src/ResXManager.Model/MobileExtensions.cs:61-68 | The pass registers a locale if and only if some entity declares a language with that code. |
| Extraction.CatalogStepsPuts | src/ResXManager.Model/MobileExtensions.cs:70-76 | The pass adds a pair to a locale if and only if some entry provides it for a language with that code. |
| Extraction.PosInjective | src/ResXManager.Model/MobileExtensions.cs:61-77 | Different (entity, entry, language) positions of the nested loops are different moments of the pass. |
| Buckets.ApplyOutcome | src/ResXManager.Model/MobileExtensions.cs:66-74 | Registering a locale (lines 66-67) never throws, and adds one bucket if and only if the locale is new. An Add (line 74) throws if and only if its locale has no bucket (UnknownLocale) or its key is already in that bucket (DuplicateKey). A successful Add leaves the number of buckets unchanged. |
| Buckets.IndexOf | src/ResXManager.Model/MobileExtensions.cs:74 | Finding a locale in the dictionary gives its first position, or the length when the locale is absent. |
| Buckets.ApplyCodes | src/ResXManager.Model/MobileExtensions.cs:66-67 | A successful step adds a locale code only when it registers a locale not yet present. It adds that code at the end. |
| Buckets.ApplyLookup | src/ResXManager.Model/MobileExtensions.cs:74 | A successful step appends its own pair to its own locale's bucket and leaves every other bucket unchanged. |
| Buckets.RunCodes | src/ResXManager.Model/MobileExtensions.cs:61-68 | After a successful run, the registered locales are the ones present before plus every locale the run declares. |
| Buckets.RunLookup | src/ResXManager.Model/MobileExtensions.cs:70-76 | After a successful run, every bucket holds its earlier pairs followed by the pairs the run put to it, in order. |
| Buckets.RunWellFormed | src/ResXManager.Model/MobileExtensions.cs:58-77 | A successful run keeps the locale codes distinct and the keys of each bucket distinct. |
| Buckets.StepAfterRun | src/ResXManager.Model/MobileExtensions.cs:74 | A step after a successful run goes through if and only if it is accepted: an Add needs its locale registered and its key new. A rejected Add raises UnknownLocale or DuplicateKey as the case demands. |
| Buckets.RunOkIff | src/ResXManager.Model/MobileExtensions.cs:74 | A run succeeds if and only if every step is accepted after the steps before it. |
| Buckets.FirstFailure | src/ResXManager.Model/MobileExtensions.cs:74 | A failed run fails at its first rejected Add, and the exception is the one that Add raises. |
| Buckets.RunFailsOnUndeclared | src/ResXManager.Model/MobileExtensions.cs:74 | An Add to a locale that is neither present nor declared earlier in the run makes the run throw. |
| Buckets.RunFailsOnRepeat | src/ResXManager.Model/MobileExtensions.cs:74 | Two Adds of the same key to the same locale make the run throw. |
| Serializers.WhiteSpaceChars | src/ResXManager.Model/MobileExtensions.cs:90 | Space, tab, the line breaks, NEL, no-break space, the line and paragraph separators and the ideographic space count as white space. Digits, Latin letters, the zero-width space and the byte-order mark do not. |
| Serializers.BlankValues | src/ResXManager.Model/MobileExtensions.cs:126 | A value is blank if and only if every character of it is white space, so the empty value is blank. |
| Serializers.Kept | src/ResXManager.Model/MobileExtensions.cs:88-92 | The filter never yields more pairs than the bucket holds. |
| Serializers.KeptMembers | src/ResXManager.Model/MobileExtensions.cs:88-92 | A pair survives the filter if and only if it is in the bucket and its value is not null, empty or whitespace-only. |
| Serializers.KeptAppend | src/ResXManager.Model/MobileExtensions.cs:124-131 | The filter works pair by pair and keeps bucket order. |
| Serializers.KeptKeysDistinct | src/ResXManager.Model/MobileExtensions.cs:88-92 | Filtering a bucket with distinct keys leaves distinct keys. |
| Serializers.AndroidXmlResourcesModel.constructor | src/ResXManager.Model/MobileExtensions.cs:152-156 | A new document model starts with an empty list of string elements. |
| Serializers.SerializeForAndroid | src/ResXManager.Model/MobileExtensions.cs:82-117 | The document that is written is AndroidDocument of the bucket: one KeyValue per non-blank pair, in order. The attempt is written unless the file write throws, which is caught. |
| Serializers.AndroidDocumentShape | src/ResXManager.Model/MobileExtensions.cs:152-165 | The document root is `resources`. An element is a child if and only if it is a `string` element whose name and text are a pair of the bucket with a non-blank value. Distinct keys give distinct names. |
| Serializers.AndroidDocumentElements | src/ResXManager.Model/MobileExtensions.cs:86-92 | The root is `resources`. The document has one child per kept pair, in order, and child i is the `string` element whose name is kept pair i's key and whose text is its raw value. |
| Serializers.AndroidRoundTrip | src/ResXManager.Model/MobileExtensions.cs:86-92 | Reading the document back gives exactly the bucket's non-blank pairs, in bucket order. |
| Serializers.SerializeForiOS | src/ResXManager.Model/MobileExtensions.cs:119-141 | The text that is written is IosText of the bucket: one `"K" = "V";` line per non-blank pair, in order, then one more line break. The attempt is written unless the write throws, which is caught. |
| Serializers.LineShape | src/ResXManager.Model/MobileExtensions.cs:128-129 | A line is a quote, the raw key, the separator `" = "`, the raw value, a quote and a semicolon, then the line break. Its length is that of key and value plus ten. |
| Serializers.IosTextShape | src/ResXManager.Model/MobileExtensions.cs:123-132 | The text always ends with the final line break. It is that line break alone if and only if no pair is kept. |
| Serializers.LineRoundTrip | src/ResXManager.Model/MobileExtensions.cs:128-129 | A pair whose key holds no quote reads back from its line. |
| Serializers.LinesRoundTrip | src/ResXManager.Model/MobileExtensions.cs:124-131 | The lines of readable pairs read back as exactly those pairs, in order. |
| Serializers.IosRoundTrip | src/ResXManager.Model/MobileExtensions.cs:123-133 | When every kept pair is readable, the written text reads back as exactly the bucket's non-blank pairs, in bucket order. |
| Serializers.IosTextOfBlankBucket | src/ResXManager.Model/MobileExtensions.cs:123-132 | A bucket whose values are all blank yields a single line break. |
| Serializers.IosLineAmbiguous | src/ResXManager.Model/MobileExtensions.cs:128 | Nothing is escaped, so two different pairs can produce the same line. |
| Export.ExportAndroidFiles | src/ResXManager.Model/MobileExtensions.cs:15-34 | The Android export is ExportReport(Android, ...). If extraction throws, nothing is attempted. Otherwise a write is attempted for every bucket, in order, until the first folder that cannot be created. |
| Export.WriteAndroidLocales | src/ResXManager.Model/MobileExtensions.cs:19-33 | The Android loop over the buckets computes `values` or `values-<code>`, makes sure the folder exists and calls the serializer. It equals the reference export ExportOf(Android, ...). |
| Export.ExportiOSFiles | src/ResXManager.Model/MobileExtensions.cs:36-51 | The iOS export is ExportReport(Ios, ...), with the same extraction abort and the same per-locale behaviour. |
| Export.WriteiOSLocales | src/ResXManager.Model/MobileExtensions.cs:40-50 | The iOS loop over the buckets computes `Base.lproj` or `<code>.lproj`, makes sure the folder exists and calls the serializer. It equals ExportOf(Ios, ...). |
| Export.ExportOfShape | src/ResXManager.Model/MobileExtensions.cs:19-33 | There is one attempt per locale, in bucket order, each to `<dir>/<folder>/strings.xml` with the rendering of its bucket. The attempts run up to the first locale whose folder cannot be created, and the export stops there with that folder. Without such a locale, the export does not abort. |
| Export.FailureIsolation | src/ResXManager.Model/MobileExtensions.cs:112-116 | Which file writes throw changes nothing but the written flags. The export attempts the same files with the same contents and ends the same way. |
| Export.UnblockedExport | src/ResXManager.Model/MobileExtensions.cs:19-33 | When every folder can be created, each bucket gets exactly one attempt, in order, and the export does not abort. |
| Export.FolderRoundTrip | src/ResXManager.Model/MobileExtensions.cs:22-26 | The locale code can be recovered from its folder name on both platforms. On iOS this needs a code other than "Base". |
| Export.FolderCodeSound | src/ResXManager.Model/MobileExtensions.cs:43 | Every folder name that reads as a locale code is that locale's folder. |
| Export.IosBaseCollision | src/ResXManager.Model/MobileExtensions.cs:43 | Locale "Base" and the neutral locale share the iOS folder `Base.lproj`. |
| Export.SameFile | src/ResXManager.Model/MobileExtensions.cs:32 | Two locales write the same file if and only if they are the same locale. On iOS this excludes "Base". |
| Export.DistinctFiles | src/ResXManager.Model/MobileExtensions.cs:19-33 | With distinct locale codes, no two attempts of an export write the same file. On iOS this excludes "Base". |
| Export.AndroidBucketDocument | src/ResXManager.Model/MobileExtensions.cs:86-92 | The document of an extracted bucket has a `string` element (name, text) if and only if some entry provides that pair for the locale with a non-blank value. |
| Export.AndroidExportContents | src/ResXManager.Model/MobileExtensions.cs:15-34 | When extraction succeeds and every folder can be created, the Android export attempts one file per bucket. A locale's file is attempted if and only if some entity declares that locale. Each attempt goes through if and only if its path is not one whose write throws. Each file's `string` elements are exactly the non-blank pairs the catalog provides for that locale. |
| Export.CombineShape | src/ResXManager.Model/MobileExtensions.cs:29-32 | A combined path is the directory, one "/" and then the name. |
| Export.FolderShape | src/ResXManager.Model/MobileExtensions.cs:22-43 | On Android (lines 22-26) the folder is `values`, followed by `-<code>` if and only if the locale is not neutral. On iOS (line 43) it is `Base` for the neutral locale, or the code otherwise, followed by `.lproj`. |
| Export.FilePathShape | src/ResXManager.Model/MobileExtensions.cs:32 | A locale's file is `strings.xml`, directly inside that locale's folder under the export directory. |

## Left out

- File system effects (`Directory.Exists`, `Directory.CreateDirectory`, `File.CreateText`, `File.WriteAllText`) are parameters. A folder either can be created (or exists) or is in `Env.blockedFolders`. A file write either goes through or its path is in `Env.failingFiles`. The model does not tell an existing folder from a newly created one.
- `Path.Combine` is modelled as joining with "/"; other separators and rooted second arguments are not modelled.
- The bytes that `XmlSerializer` and `XmlWriter` produce are not modelled: indentation, escaping and the omitted declaration. The Android output is an abstract document of `(name, text)` elements under `resources`.
- Exceptions that `XmlWriter` would raise for characters XML cannot hold are not modelled. They would be caught like a failing write, and the model expresses any caught serializer exception through `Env.failingFiles`.
- Culture resolution (`CultureInfo.TwoLetterISOLanguageName`) is not modelled. A culture is an already-resolved code or none.
- `Environment.NewLine` is fixed to "\r\n".
- Strings are sequences of Unicode scalar values, not UTF-16 code units. The whitespace table is .NET's `char.IsWhiteSpace`, whose whitespace characters all lie in the Basic Multilingual Plane.
- Console diagnostics in the two catch blocks are not modelled.
- The unused `NativeMobileOS` enum is not modelled.
- Dictionary enumeration order is taken to be insertion order. Both dictionaries are only ever added to.
- Null entry keys are not modelled. A null value lookup is a missing map entry, read as "".
- Serializers.IosRoundTrip: only holds when no kept pair has a quote in its key or a carriage return in its key or value. The format escapes nothing, and IosLineAmbiguous shows two pairs with the same line.
- Export.FolderRoundTrip: excludes iOS code "Base", because its folder is that of the neutral locale (IosBaseCollision).
- Serializers.Kept: its own contract is only a length bound. Which pairs are kept, and in what order, is stated by KeptMembers and KeptAppend, so that functions using Kept do not carry a quantified contract.
- Export.AndroidExportContents: stated for Android only; the iOS counterpart follows from IosRoundTrip and ExportOfShape but is not stated as one lemma.
