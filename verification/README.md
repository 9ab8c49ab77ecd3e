# mina-provision: a verified model

mina-provision fetches published artifacts of the Mina network and places them:
archive dumps, precomputed blocks, daemon packages. This project models the
algorithms inside it and proves what they promise, for all inputs, runs and
server states.

| file | what it models |
|---|---|
| `GoText.dfy` | the parts of Go's strings, strconv and bufio that the rest needs |
| `AptVersion.dfy` | the Debian version order and the two-cursor loop that decides it |
| `AptOrder.dfy` | what that order says about tildes, letters, other characters and epochs |
| `AptRepo.dfy` | the stanza parser of a Packages index and the choice of a package |
| `Deb.dfy` | the walk over the members of a .deb |
| `Template.dfy` | name templates: parsing, `Render`, `Prefix` |
| `Blocks.dfy` | the range flag and the discovery of blocks by height |
| `NewestDump.dfy` | the choice of the newest archive dump |
| `Provider.dfy` | the configuration overlay, lookup and validation |
| `Dump.dfy` | the dump header scan and the edit that removes CREATE DATABASE |
| `DumpErrors.dfy` | the errors of the two |
| `PsqlRun.dfy` | psql on a text, over a server with any number of databases |
| `Restore.dfy` | the restore decision, the two load paths, and the meaning of the edit |
| `Openings.dfy` | which accepted dumps leave a target alone, and what the others do to it |
| `Limits.dfy` | the numbers in the code: 20000 lines of a dump, 4 MiB a line |
| `AtomicFile.dfy` | the placing protocol, with any number of writers and readers |
| `Source.dfy` | verified downloads on top of that protocol |

Conventions. A Go string is a sequence of bytes; here it is a `string` whose
chars are the bytes, so a statement about every string covers every byte string.
White space is trimmed as Go does it, on the UTF-8 encodings of the Unicode space
characters. A loop in the source is a method with invariants, proved against a
function; the laws are lemmas about that function. Listings of a provider, the
psql program, SHA-256, URL checks and step failures are parameters, so each
statement holds for all of them.

Findings, each with the exact condition or a counterexample proved here.

- The version comparison is a total preorder on strings without NUL. Over any
  alphabet it is transitive exactly when NUL is not in the alphabet, or no digit
  is, or nothing is but NUL and 0 (`AptVersion.TransitiveExactly`).
- The limit of 4096 bytes on a sidecar holds for the gcs backend only
  (`Source.LimitHoldsExactly`). `limitedBuffer` embeds a `bytes.Buffer`, so it also
  has that type's `ReadFrom`, and the `io.Copy` of the http and file backends calls
  it (internal/source/http.go:36, internal/source/file.go:47). The `Write` with the
  limit is reached through the multi-writer of internal/download/download.go:44
  alone. Over http and file a sidecar of any length is read into memory and
  accepted (`Source.LongSidecarIsAccepted`), against internal/source/source.go:82-84.
- Two heights are told apart by their prefixes, whatever natural numbers they are,
  exactly when before the first unknown placeholder the height is followed somewhere
  by a character that is not a digit (`Blocks.CollisionFreeExactly`). Without that,
  one name can be found twice. For the 64-bit heights of a run, 19 digits or more
  that have no period up to 18 do as well (`Blocks.RunsCollisionFreeExactly`).
- README.md:192-193 of the repository says a run fetches at most 50000 blocks. The
  code fails as soon as 50000 are found, so a successful walk has fewer.
- The header check does not protect a target that is not empty from every dump that
  it accepts. A dump of pg_dump --create --clean drops its database before it creates
  it; the scan passes over that line, and the run replaces the target and reports
  success (`Openings.CleanDumpReplacesTarget`, `Openings.DropTakesTarget`), against
  internal/pg/pg.go:139-140. A dump with a `\connect` line but no CREATE DATABASE, or
  with the short form `\c` before it, runs its statements on the target
  (`Openings.ConnectOnlyIsNotProtected`, `Openings.ConnectRunsOnTarget`).
- When the lines before the first command of an accepted dump are session statements,
  the condition is exact: every run leaves the target as it was if and only if the
  text that is loaded stops, at its CREATE DATABASE or at its end, before it drops the
  target or runs a statement on it (`Openings.TargetIsLeftExactly`,
  `Openings.FirstCommandDecides`). Commands are CREATE DATABASE, DROP DATABASE and
  `\connect` lines; a session statement changes no database at all.
- The edit for an empty target preserves the meaning of a dump if and only if no DROP
  DATABASE line for its database comes before CREATE DATABASE
  (`Openings.EditPreservesExactly`). With one, the edited dump drops the target and
  then fails at the `\connect` (`Openings.EditedDropLosesTarget`).
- "Empty" means that the probe counts nothing (internal/pg/pg.go:174-185). A target
  that holds only what it does not count, such as a schema or a large object, is
  restored into and can change; `Openings.TargetIsLeftExactly` covers it too.
- The -reuse-previous form of `\connect`, in which pg_dump escapes quotes and backslashes
  and doubles double quotes, is read back exactly when the name has no double quote and
  no two single quotes next to each other (`Dump.ConnectForms`): two adjacent quotes are
  read as one, and a double quote as two (internal/pg/dump.go:162-169).
- A value is rewritten by `Render` in some template of its kind exactly when some
  part of it up to its end is the start of another field's placeholder, or starts
  with one (`Template.NeverRewrittenExactly`, with brace-free values for the other
  fields). The commands let no such value through.
- The ar walk accepts a header with a negative size and skips nothing after it
  (`Deb.NegativeSizeSkipsNothing`); it still ends, and every header it reads is at an
  even offset.

## Model

| member | source | states |
|---|---|---|
| `AptVersion.CompareFragment` | internal/apt/version.go:78-124 | the nested loops return the reference value for every pair of strings, NUL or not; without NUL its sign is the lexicographic comparison of the zero-padded keys |
| `AptVersion.CompareRunsAt` | internal/apt/version.go:99-121 | skipping zeros, walking the common digits and looking at the longer run decide a round exactly as comparing the two digit runs does, and leave the cursors at the ends of the runs |
| `AptVersion.CompareRunsIsNumeric` | internal/apt/version.go:99-121 | stripping zeros and comparing run length, then the first difference, is comparison of the unbounded numbers the runs denote |
| `AptOrder.TildeIsBeforeEnd` | internal/apt/version.go:56-73 | a tilde and whatever follows it sorts before the end: u~s is before u, for every u and s |
| `AptOrder.EndIsBeforeMark` | internal/apt/version.go:56-73 | the end sorts before every other character that is not a digit or NUL |
| `AptOrder.MarksDecide` | internal/apt/version.go:56-73 | at the first difference between two characters that are not digits: the tilde first, then the letters, then the others, each group by its bytes, whatever comes before and after |
| `AptOrder.MarkAgainstNumber` | internal/apt/version.go:83-110 | against a digit a tilde is before and every other character after |
| `AptVersion.FragmentComparesKeys` | internal/apt/version.go:75-124 | for all strings without NUL the sign of the comparison equals the comparison of integer keys: a weight for each non-digit, 0 at the end of a non-digit run, the number of each digit run |
| `AptVersion.KeyCompareMeaning` | internal/apt/version.go:75-124 | the key comparison is the lexicographic order of the zero-padded keys, stated by their first difference |
| `AptVersion.FragmentAntisymmetric` | internal/apt/version.go:78-124 | exchanging the arguments negates the value exactly, for every pair of strings |
| `AptVersion.FragmentTransitive` | internal/apt/version.go:78-124 | the comparison is transitive on strings without NUL, and an equality at the ends forces equalities between |
| `AptVersion.TransitiveExactly` | internal/apt/version.go:56-73 | over every alphabet, transitivity holds if and only if NUL is not in it, or it has no digit, or it has nothing but NUL and 0 |
| `AptVersion.NulIsNotTwoZeros` | internal/apt/version.go:83-121 | NUL before a character equals one zero before it, which equals two zeros before it, and yet differs from two zeros before it by the weight of the character |
| `AptVersion.CompareVersions` | internal/apt/version.go:21-35 | epochs, then upstream parts, then revisions decide |
| `AptOrder.TildeVersionIsEarlier` | internal/apt/version.go:21-35 | a version that goes on with a tilde is before the version without the rest, as 1.0~rc1 is before 1.0 |
| `AptOrder.LongerVersionIsLater` | internal/apt/version.go:21-35 | a version that goes on with a letter or another mark is after it |
| `AptOrder.PartsDecide` | internal/apt/version.go:12-35 | of two written versions the smaller epoch is earlier, at equal epochs the upstream parts decide, and only if they compare equal the revisions |
| `AptOrder.MissingEpochIsZero` | internal/apt/version.go:40-48 | a version without a colon has epoch 0 and equals the same version with 0: before it |
| `AptOrder.SpacesAreIgnored` | internal/apt/version.go:40-41 | spaces around a version are not part of any of its parts |
| `AptVersion.VersionAntisymmetric` | internal/apt/version.go:21-35 | CompareVersions(a,b) is exactly -CompareVersions(b,a) |
| `AptVersion.VersionTransitive` | internal/apt/version.go:21-35 | versions without NUL are transitively ordered; with antisymmetry a total preorder |
| `AptVersion.VersionEqualMeans` | internal/apt/version.go:21-35 | two versions compare equal if and only if their epochs are equal and both keys are equal as padded sequences |
| `AptVersion.VersionLessMeans` | internal/apt/version.go:21-35 | a version is before another if and only if the first of epoch, upstream key and revision key that differs is smaller |
| `AptVersion.SplitReadsBack` | internal/apt/version.go:40-54 | every epoch:upstream-revision whose revision has no hyphen and no trailing space is split into those three parts, for every 64-bit epoch |
| `AptVersion.MissingRevisionIsZero` | internal/apt/version.go:37-39 | a version without a revision compares equal to the same version with revision 0 |
| `AptRepo.ParsePackages` | internal/apt/repo.go:226-267 | the stanza machine with its open stanza and its flush yields the packages of the lines, or nothing when the reader fails or a line is too long |
| `AptRepo.ParseIsHomomorphic` | internal/apt/repo.go:230-251 | parsing x, a blank line and y is parsing x followed by parsing y, for all texts, failing exactly when one of them fails: no field leaks across stanzas |
| `AptRepo.ParseUndoesPrint` | internal/apt/repo.go:226-267 | reading a printed index with any other fields and any lines indented by a space or a tab gives exactly the packages of that name with a Filename, in order, every field intact and the digest in lower case |
| `AptRepo.FieldIsTrimmed` | internal/apt/repo.go:256-260 | white space around the key and around the value of a field is not part of them |
| `AptRepo.SizeOfStanza` | internal/apt/repo.go:230-241 | a size that is no number counts as 0, and one over 64 bits as the largest |
| `AptRepo.Best` | internal/apt/repo.go:113-119 | the selection loop returns a candidate that is at least every other and is the first such in index order |
| `AptRepo.MaximumIgnoresOrder` | internal/apt/repo.go:113-119 | any permutation of the candidates selects an equally high version |
| `AptRepo.Resolve` | internal/apt/repo.go:65-120 | the candidates are the entries of the index for all, then of the one for amd64, a missing index having none and an unreadable one being the error; a pinned version gives the first entry that has it, otherwise the first highest is returned; each error has its condition |
| `AptRepo.CandidatesAre` | internal/apt/repo.go:60-96 | the loop over the architectures visits all and amd64 in this order, and stops at the first that cannot be read |
| `Deb.ExtractData` | internal/apt/deb.go:34-86 | the loop over the file position ends on every input, reads every header at an even offset, refuses a file that does not start with !<arch> and a newline, and hands on the body the member walk selects, with the same errors |
| `Deb.ReadHeader` | internal/apt/deb.go:88-108 | a header of 60 bytes is read at the position, a short rest ends the archive |
| `Deb.SkipLength` | internal/apt/deb.go:75-83 | the skip over a body is its size plus padding, always even; a negative size skips nothing |
| `Deb.ParseHeader` | internal/apt/deb.go:88-108 | a member has a header of 60 bytes and a size that fits its field of ten characters |
| `Deb.HeaderForms` | internal/apt/deb.go:91-107 | fewer than 60 bytes end the archive; a header is malformed if and only if its last two bytes are not a backquote and a newline; the size is what bytes 48 to 57 spell |
| `Deb.NegativeSizeSkipsNothing` | internal/apt/deb.go:75-83 | for every header with a negative size: the walk goes on with the bytes right after the header |
| `Deb.HeaderReadsBack` | internal/apt/deb.go:91-107 | name and size are read back from every written header, with or without the slash of GNU ar |
| `Deb.WalkUndoesWrite` | internal/apt/deb.go:56-86 | on a written archive the result is the body of the first data member if it is data.tar.gz, an error naming it if not, and an error with all names if there is none |
| `Deb.DataComesBack` | internal/apt/deb.go:67-73 | the gzip data member comes back byte for byte when no earlier name starts with data.tar |
| `Deb.DataOfSize` | internal/apt/deb.go:67-73 | as many bytes of the gzip data member are handed on as its size says: none for a negative size, those that are there when the archive is cut off |
| `Template.Placeholders` | internal/provider/template.go:124-152 | the loop returns the distinct names of the placeholders in order of first appearance, with the same errors |
| `Template.ParseIsExact` | internal/provider/template.go:124-152 | a template parses to tokens if and only if the tokens are well formed and spell it, a stray closing brace before a later placeholder included |
| `Template.ParseErrors` | internal/provider/template.go:124-152 | after text without an opening brace: a closing brace and no placeholder, an opening brace that is not closed, and an empty placeholder each give their error |
| `Template.LaterErrors` | internal/provider/template.go:124-152 | an error after a placeholder is the error of the whole template |
| `Template.CheckTemplate` | internal/provider/template.go:41-58 | accepted if and only if the template parses and every placeholder is a field of the kind |
| `Template.FieldsOfKinds` | internal/provider/template.go:20-32 | the placeholders accepted are date and hour for an archive dump, height and state_hash for blocks, ref for a daemon configuration, and none for a genesis configuration |
| `Template.Render` | internal/provider/template.go:63-80 | for every input the result of rewriting name by name; for accepted templates and values without an opening brace the simultaneous substitution; with every value supplied it fails if and only if the text has a .. segment or a forbidden character |
| `Template.UnsafeExactly` | internal/provider/template.go:82-100 | a name is refused if and only if it is x..y with x empty or ending in a slash and y empty or starting with one, or it holds a question mark, a hash, a backslash, a byte up to 31 or 127, or one of U+0080 to U+009F |
| `Template.RefusedExactly` | internal/provider/template.go:63-100 | for an accepted template with every value supplied, substitution is refused exactly for such a text |
| `Template.Prefix` | internal/provider/template.go:107-122 | for accepted templates and such values, the rendered text before the first unknown placeholder |
| `Template.RewriteIsSimultaneous` | internal/provider/template.go:68-75 | rewriting the names one by one, in any order and with any repetition, equals one simultaneous substitution over the tokens |
| `Template.RenderIsSimultaneous` | internal/provider/template.go:63-80 | the outcome of Render, errors included, is that of simultaneous substitution |
| `Template.RewriteIsSimultaneousApart` | internal/provider/template.go:68-75 | the same for values with braces, as long as no value can be part of the placeholder of another name |
| `Template.NeverRewrittenExactly` | internal/provider/template.go:68-75 | a value for one name is substituted simultaneously in every accepted template of the kind if and only if no suffix of it starts, or is started by, the placeholder of another field of the kind |
| `Template.BraceInValueIsRewritten` | internal/provider/template.go:69-75 | a value that spells a placeholder is rewritten, where simultaneous substitution keeps it |
| `Template.PrefixIsKnown` | internal/provider/template.go:107-122 | cutting the rewritten template at its first brace is cutting the tokens at the first unknown placeholder |
| `Template.PrefixOfRender` | internal/provider/template.go:102-122 | the prefix of some fields is a prefix of every successful Render that extends them |
| `Blocks.ParseRange` | cmd/blocks.go:252-303 | an accepted range has heights in 0..maxHeight, is not reversed, and covers at most 50000 heights when closed |
| `Blocks.RangeReadsBack` | cmd/blocks.go:252-290 | every range is read back from N, N- and N-M, and the two refusals of N-M are exact |
| `Blocks.HighHeightIsRefused` | cmd/blocks.go:292-303 | a height below 0 or over 9223372036854775806 is refused |
| `Blocks.BadHeightsAreRefused` | cmd/blocks.go:252-303 | a range of any form with such a height, or with a text that is no number, is refused for it |
| `Blocks.DiscoverBlocks` | cmd/blocks.go:201-246 | for every provider behaviour the walk ends, after at most 50,000,000 listings when open-ended, without the height leaving 64 bits; on success it returns all names of the heights it covered, fewer than 50000, with no listing failed and no height skipped, and an open-ended walk stopped after exactly 1000 empty heights, or at the maximal integer, with no earlier run that long; each error is placed at its height |
| `Blocks.MissesMeaning` | cmd/blocks.go:223-233 | the counter of consecutive misses is the exact length of the run of empty heights |
| `Blocks.CollisionFreeExactly` | cmd/blocks.go:205-211 | over all natural heights: the prefixes of different heights never match one name if and only if a character that is not a digit follows the height before the first unknown placeholder |
| `Blocks.RunsCollisionFreeExactly` | cmd/blocks.go:205-211 | the same over the 64-bit heights of a run, for templates with one height among the digits or few digits: such a character follows, or 19 literal digits or more without a period up to 18 |
| `Blocks.DelimitedKeepsApart` | cmd/blocks.go:205-211 | in such a template a name carries the prefix of at most one height |
| `Blocks.CollectedIsFilter` | cmd/blocks.go:201-246 | with exact listings the names collected are precisely the published .json names carrying the prefix of a height in the range, each once, ascending by height |
| `Blocks.DiscoveryIsFilter` | cmd/blocks.go:201-246 | the same of every successful walk, closed or open-ended; the only failure left is the cap |
| `NewestDump.LessIsEarlier` | cmd/archive.go:359-361 | string order on valid four-digit hours is time order |
| `NewestDump.ValidHourIsTime` | cmd/archive.go:377-386 | the valid hours are exactly the two digits of some h < 24 followed by the two digits of some m < 60 |
| `NewestDump.NewestOfDay` | cmd/archive.go:348-362 | the loop over the listed names keeps a dump of the day with the greatest hour, or nothing when there is none |
| `NewestDump.DumpShowsItsHour` | cmd/archive.go:350-357 | every dump name starts with the prefix of its day and shows its hour in the next four characters |
| `NewestDump.NewestDump` | cmd/archive.go:334-370 | the result is decided by the first day whose listing fails or that has a dump, and is an error if there is no such day; a template without an hour is rendered with the first day |
| `NewestDump.ListingIsEnough` | cmd/archive.go:340-362 | listing by prefix misses no dump: the newest among the listed names is the newest among everything published |
| `NewestDump.NewestIsComplete` | cmd/archive.go:327-370 | with exact listings the result is the newest published dump of the first day that has one, and an error exactly when no day has one |
| `NewestDump.NewestOverAllTimes` | cmd/archive.go:327-370 | the same over the 1440 times of a day: an error exactly when no day has a dump at any h < 24 and m < 60, and otherwise a dump of the first day that has one, with none of that day at a later time |
| `Provider.Merge` | internal/provider/provider.go:215-266 | on tables in the heap, shared or not: the loops compute the overlay, in whatever order the keys are taken, and write to no table that was there before, so base and over keep their values; the provider table and the network table of each provider that both sides have are new, every other network table is shared |
| `Provider.MergeNetworks` | internal/provider/provider.go:242-259 | the networks of a provider that both sides have are merged into a new table |
| `Provider.LookupInMerge` | internal/provider/provider.go:215-266 | looking up in the overlay gives the artifact of over if it has one, and otherwise the one of base |
| `Provider.ResolveInMerge` | internal/provider/provider.go:215-290 | resolving in an overlay, said of its two sides: an empty name asks for the provider that over names, and for the one base names only when over names none; the two unknown cases, the artifact returned, and whose it is |
| `Provider.OverlayComesFirst` | internal/provider/provider.go:220-241 | version, default provider and the description of a provider that both sides have are those of over where it gives them, and of base otherwise; a provider of one side is taken as it is |
| `Provider.MergeAssociates` | internal/provider/provider.go:220-266 | the overlay is associative, on whole configurations |
| `Provider.MergeIdempotent` | internal/provider/provider.go:220-266 | a configuration over itself is itself, and the empty configuration is neutral on both sides |
| `Provider.MergeTwice` | internal/provider/provider.go:220-266 | applying an overlay twice is applying it once |
| `Provider.Validate` | internal/provider/provider.go:338-365 | accepted if and only if the version, the default provider and every artifact of every network are valid |
| `Provider.ValidateArtifact` | internal/provider/provider.go:367-436 | accepted if and only if the artifact meets the rules of its backend and kind, its template included |
| `Provider.ArtifactsByBackend` | internal/provider/provider.go:367-436 | the valid artifacts of each of the four backends, field by field; no other backend is valid |
| `Provider.PlainNames` | internal/provider/provider.go:118-120 | the database names are those of lower-case letters, digits and underscores that do not start with a digit |
| `Provider.ResolvedIsValid` | internal/provider/provider.go:268-290 | an artifact resolved from a validated overlay is the one of over or else of base, and is valid for its kind |
| `Dump.ReadQuoted` | internal/pg/dump.go:132-147 | the builder loop reads a quoted identifier, or reports that it does not end |
| `Dump.IdentifierReadsQuoted` | internal/pg/dump.go:130-156 | every name is read back from its form in quotes with doubled quotes, whatever follows |
| `Dump.IdentifierReadsPlain` | internal/pg/dump.go:148-155 | a name without quotes is read up to a space, tab or semicolon, and folded to lower case |
| `Dump.ConnectForms` | internal/pg/dump.go:158-182 | the quoted form of a \connect line gives back every name, the plain one every name that needs no quotes, and the -reuse-previous form a name if and only if it has no double quote and no two single quotes next to each other |
| `Dump.ClassifyExactly` | internal/pg/dump.go:58-80 | a line is data, \restrict, CREATE DATABASE or \connect if and only if it starts, after trimming, with the word for it, and its target is read from what follows |
| `Dump.EndsStatementExactly` | internal/pg/dump.go:108-118 | a statement ends on its line if and only if the last character that is not white space is a semicolon |
| `Dump.ScanDumpHeader` | internal/pg/dump.go:40-87 | the scan loop computes the header of the first 20000 lines up to the first table, with its errors; an error of the reader counts when the scanner has met it by then |
| `Dump.HeaderMeaning` | internal/pg/dump.go:40-87 | the scan succeeds if and only if each CREATE DATABASE and \connect line among the lines it takes is read, no name is followed by a different one, and no read error was met; the database is then the one non-empty name of those lines, and Restrict holds if and only if there is such a line |
| `Dump.WithoutCreateDatabase` | internal/pg/dump.go:101-128 | the reading loop computes the edited stream or the error, and a broken reader stays broken |
| `Dump.EditRemovesOneLine` | internal/pg/dump.go:101-128 | the edit succeeds if and only if a first line creates the database, on one line ending in a semicolon, within 20000 lines and before any table; the input is head, line, tail and the output exactly head, tail |
| `Dump.ScanAgreesWithEdit` | internal/pg/dump.go:35-128 | if the edit succeeds for a non-empty name, the scan of the same stream rejects it or names that database, despite the different line splitting |
| `Limits.ScanStopsAfter20000` | internal/pg/dump.go:30-58 | a CREATE DATABASE line after fewer than 20000 other lines names the database of the dump, and one after 20000 or more does not |
| `Limits.EditStopsAfter20000` | internal/pg/dump.go:101-128 | and the edit takes it out after fewer than 20000 lines only |
| `Limits.LinesUpTo4MiB` | internal/pg/dump.go:56-57 | a line of up to 4194303 bytes is read, a longer one ends the scan with an error |
| `DumpErrors.ScanFailsAt` | internal/pg/dump.go:48-80 | the scan fails at the first line that cannot be read or names a second database, with the error of that line |
| `DumpErrors.ScanReadFails` | internal/pg/dump.go:81-85 | when the names agree and the scanner meets an error of its reader, that is the error |
| `DumpErrors.EditFailsAt` | internal/pg/dump.go:101-128 | the edit fails at the first line that is not passed over: at a CREATE DATABASE that cannot be read or continues, at a table, at the end, at an error of the reader, or after 20000 lines, each with its error |
| `DumpErrors.UnreadableNames` | internal/pg/dump.go:130-156 | quotes that are not closed, and no name at all, are refused |
| `DumpErrors.UnreadableConnects` | internal/pg/dump.go:158-182 | a \connect line without a database, with open quotes, or with another or an open connection string is refused |
| `Restore.MaintenanceAvoidsTarget` | internal/pg/pg.go:413-425 | the maintenance URI differs from the given one at most in its database, and names the target itself only when the target is postgres and the URI names it or nothing |
| `PsqlRun.LoadInto` | internal/pg/pg.go:134-172 | psql on a text: line by line, with statements that act on any database of the server, creating and dropping databases, switching at \connect and \c, stopping at the first error |
| `Restore.RunArchive` | cmd/archive.go:107-260 | the result and the server after the run are those of its decisions followed by the load they select |
| `Restore.RefusedForVersionExactly` | internal/pg/dump.go:184-201 | a dump for the right database is refused for psql if and only if it has a \restrict line in its head and the version is known and at most 12, or before 13.22, 14.19, 15.14, 16.10 or 17.6 in its major version |
| `Restore.RunRefusedForVersionExactly` | cmd/archive.go:309-319 | the whole run gives up for the version exactly then, and leaves the server as it was |
| `Restore.FailedTuningLoadsNothing` | cmd/archive.go:234-237 | a run whose tuning fails leaves the server as it was and never reports a restore |
| `Restore.EndsExactly` | cmd/archive.go:107-241 | a run that does not come to a load leaves the server as it was; which of the reasons it has, and in which order they count: no database, no answer about an archive, an archive with skip or fail, no dump, a refused dump, failed tuning, no answer about emptiness |
| `Restore.LoadsExactly` | cmd/archive.go:238-260 | every other run reports the load of the dump, without its CREATE DATABASE if and only if a database is configured, exists and looks empty, over a connection to another database than the target where it can |
| `Restore.LoadStopsAtCreate` | internal/pg/pg.go:134-144 | when only session statements, which keep the whole server, come before it, a CREATE DATABASE for a database that exists stops the load and nothing changes, whatever follows it |
| `Restore.AcceptedIsEditable` | cmd/archive.go:287-321 | for every accepted dump with these parts, the edit succeeds and leaves out exactly the CREATE DATABASE statement |
| `Restore.EditPreservesMeaning` | cmd/archive.go:242-256 | for every accepted dump with only session statements before CREATE DATABASE: loading the edited dump where the database exists and is empty gives the same success or error and the same contents of every database as loading the dump where it is absent |
| `Openings.EditPreservesExactly` | cmd/archive.go:242-256 | for accepted dumps with session statements and DROP DATABASE lines for their database before CREATE DATABASE: that holds for every psql and server if and only if there is no such DROP DATABASE line |
| `Openings.EditedDropLosesTarget` | internal/pg/pg.go:146-172 | with a DROP DATABASE line before CREATE DATABASE, the edited dump drops the target and fails, for every psql |
| `Restore.LooksEmptyIsAsAbsent` | cmd/archive.go:238-256 | for every target that looks empty: as far as the dump's lines do the same on what the target holds as on nothing, the whole run gives the same result, the same other databases, and a target that is alike |
| `Restore.EmptyTargetIsAsAbsent` | cmd/archive.go:238-256 | the whole run gives the same result and final contents on a server with an empty target as on one without it |
| `Restore.RestoreIsSafe` | cmd/archive.go:230-256 | with a configured database and a dump of the shape, over every server and every path: no database but the target changes, and a target that exists and does not look empty to the probe is unchanged and the run reports an error, unless it was asked to skip |
| `Restore.UnnamedRestoreIsSafe` | cmd/archive.go:269-275 | without a configured database and with a text that stays on the database the URI names: no other database changes, and nothing does when the run ends before the load |
| `Restore.FullTargetIsKept` | cmd/archive.go:238-241 | the protection of a target that does not look empty needs only session statements up to CREATE DATABASE |
| `Openings.StoppedIsLeft` | cmd/archive.go:238-256 | for every psql to which the lines before the first command are session statements: if the text that is loaded stops, at a CREATE DATABASE for the target or at its end, before it drops the target or runs a statement on it, every run leaves the whole server as it was |
| `Openings.TargetIsLeftExactly` | cmd/archive.go:238-256 | for an accepted dump and a target that holds something, counted by the probe or not: every run of every such psql leaves it if and only if that is so |
| `Openings.FirstCommandDecides` | cmd/archive.go:238-256 | for an accepted dump whose first command is CREATE DATABASE, DROP DATABASE or \connect for its database, followed by a statement: every run leaves a target that does not look empty if and only if that command is CREATE DATABASE |
| `Openings.ConnectRunsOnTarget` | internal/pg/pg.go:134-144 | a dump that opens with \connect does to a target that does not look empty exactly what its later lines do on it |
| `Openings.DropTakesTarget` | internal/pg/pg.go:134-144 | a dump that drops the target first runs its rest on the server without it; with IF EXISTS, what the target held makes no difference to the outcome |
| `Openings.CleanDumpReplacesTarget` | internal/pg/dump.go:57-79 | the dump that pg_dump --create --clean writes, with or without IF EXISTS, for every plain name, is accepted, and the run replaces a target that is not empty and reports success |
| `Openings.AcceptedOpensClearly` | cmd/archive.go:287-307 | an accepted dump has one of the forms these results speak of, unless a command comes after the lines that are scanned, has an empty name, is a CREATE DATABASE that does not end on its line, or is a DROP DATABASE or \c for another database |
| `Restore.ArchiveIsKept` | cmd/archive.go:151-173 | with skip or fail, an archive that is present is never touched, and neither is a server that cannot be asked; the two refusals are given only for an archive |
| `Openings.ConnectOnlyIsNotProtected` | cmd/archive.go:290-307 | a dump with only a \connect line is accepted, and its statement runs on a target that is not empty |
| `Restore.PgDumpIsShaped` | internal/pg/pg.go:146-150 | what pg_dump --create writes has the shape the theorems ask for, for every plain name, all options and all whole-line session statements |
| `AtomicFile.WriteIsAtomic` | internal/atomicfile/atomicfile.go:22-60 | over every run of any number of calls and readers, with every step able to fail and every call able to be killed: the path has its initial content or the last placed one, each placed content is one accepted whole content and each call places at most once; nil means it placed, an error means it did not and, if Remove worked, left no temporary file |
| `AtomicFile.ReadersSeeWholeFiles` | internal/atomicfile/atomicfile.go:4-8 | a reader that has opened the path reads a start of one whole file, never parts of two |
| `AtomicFile.OpenedFilesStay` | internal/atomicfile/atomicfile.go:4-8 | no step changes a file that a reader has opened |
| `AtomicFile.NextKeeps` | internal/atomicfile/atomicfile.go:29-60 | every step of every call keeps the invariant |
| `AtomicFile.RenameComesLast` | internal/atomicfile/atomicfile.go:42-58 | in every run, a call renames only after it has set the mode, fill has accepted, and the file was synced and closed, in this order |
| `AtomicFile.FaultsAreAllowed` | internal/atomicfile/atomicfile.go:29-60 | in the runs these results speak of, a call can be killed at any time before it returns, and each of its steps can fail |
| `AtomicFile.Write` | internal/atomicfile/atomicfile.go:29-60 | the body of one call is a run of the protocol, for every combination of failing steps: it places the content exactly when nothing fails and fill accepts, and otherwise changes nothing but a temporary file that Remove cannot remove |
| `Source.LimitedBuffer.Write` | internal/source/source.go:117-128 | a write that would pass the limit is refused and leaves the buffer as it was |
| `Source.LimitedBuffer.ReadFrom` | internal/source/source.go:117-121 | the promoted method of the embedded buffer takes everything up to the end or the error, without the limit |
| `Source.LimitedBuffer.CopyFrom` | internal/source/source.go:95-99 | the digest file is read whole if and only if its transfer completes and, over gcs, it is no longer than the limit |
| `Source.VerifySidecar` | internal/source/source.go:91-115 | accepted if and only if no sidecar is configured, or the sidecar is complete, over gcs at most 4096 bytes, and its first token in lower case is the digest of the content |
| `Source.LongSidecarIsAccepted` | internal/source/http.go:36-38 | over http and file there is, for every digest and every length, a longer sidecar that is accepted for it |
| `Source.LimitHoldsExactly` | internal/source/source.go:82-99 | for every digest: no sidecar over 4096 bytes is accepted for it if and only if the transport is gcs |
| `Source.GcsLimitIsExact` | internal/source/source.go:82-99 | over gcs a complete sidecar of up to 4096 bytes is taken and a longer one refused |
| `Source.SidecarLineIsRead` | internal/source/source.go:100-104 | every line of the form sha256sum writes, in text or binary mode, with a space or a tab after the digest, and a bare digest, asks for its digest, in any letter case |
| `Source.Fill` | internal/source/source.go:68-80 | the fill function accepts exactly the complete object that passes the check of a run that is not cancelled |
| `Source.AcceptedIsVerified` | internal/source/source.go:62-80 | what the fill function accepts is the object of a complete transfer that was not cancelled and, in sidecar mode, has the digest its sidecar asks for, with at most 4096 bytes of sidecar over gcs |
| `Source.OnlyVerifiedContentIsPlaced` | internal/source/source.go:62-80 | over every run of any number of calls for one path, each content placed is the whole object of a job that is verified in that sense, and nil is returned only for such a job |

## Left out

- Transports: GCS, HTTP and TLS clients, redirects, timeouts, progress, signals, logging, flags and environment. Listings and transfers are parameters.
- Library formats: gzip, tar, SHA-256, YAML, JSON and URL parsing. SHA-256 and the endpoint check are parameters, a URI is the database it names and the rest.
- `internal/extract`, `cmd/replayer_input.go`, `cmd/genesis_config.go` and `cmd/config.go`: library assumptions and easy accounting.
- `strings.ToLower` outside ASCII: only ASCII letters are folded. This touches unquoted database names with other letters; no other byte can become a hex digit, so the sidecar check is not affected.
- Errors of the local disk while a .deb is walked or a digest is computed, and the extraction limit: the walk hands bytes on to an abstract extractor.
- psql itself: statements, encodings, locales, permissions and lost connections. A statement is an arbitrary step on the session and the server. On one line, CREATE DATABASE fails only when the name exists, and DROP DATABASE only for the connected database or, without IF EXISTS, for one that is absent. A `\connect` is not refused in restricted mode.
- The SQL of the emptiness probe: which contents look empty is a parameter.
- `Openings.TargetIsLeftExactly`: does not speak of dumps with other statements than session statements before the first command, of a CREATE DATABASE that continues past its line, of commands with an empty name, of commands after the lines that are scanned, or of DROP DATABASE and `\c` for another database.
- `Blocks.RunsCollisionFreeExactly`: does not speak of a second height among more than 18 digits.
- The shortcut of the gcs backend for a file that is already in place (internal/source/gcs.go:23-29): it checks the file and places nothing.
- The settings of ALTER SYSTEM: the tuning is a step that works or fails and is not part of the contents of a database.
- Other clients that change the server between the probe and the load.
- `queryRetry` back-off: a probe reaches the server or does not. The version probe of psql is a parameter.
- Power loss: no directory sync is made. A rename either happens and succeeds or does not happen.
- `AtomicFile.Write`: models one call without interference, with an array of failing steps; the interleavings are the step relation.
- Pointers to artifacts in the configuration: an artifact is a value, which `merge` passes on and never writes to.
- Error texts, and the order in which `validate` meets several faults.
- `checkCoverage`, `blockHeight`, `validateDate`, `splitPassword` and the parsers of psql output: settled by reading a branch or two.
