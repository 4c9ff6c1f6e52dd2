# Verified model of the URL canonicalizer and its companions

A Dafny model of the hardest pure logic in the repository: the path canonicalizer and the
relative-path merge of `quiche/googleurl/url`, its IP literals and host canonicalizer, its UTF
appenders and output buffer, the lazily generated nonce of opaque origins, the POSIX file path
splitter and the Base64 codecs. `dafny verify dfyconfig.toml` checks everything.

| files | what they hold |
|---|---|
| `bytes.dfy`, `options.dfy`, `escapes.dfy` | bytes, hexadecimal digits, percent escapes and what they stand for |
| `path_tokens.dfy` | the path character table, lexing, and the text that tokens should be written as |
| `path_segment.dfy`, `path_buffer.dfy` | the exact run of the path loop: segments, rewinding, the remembered index |
| `path_canon.dfy` | the loop itself, as methods |
| `path_stale.dfy`, `path_counts.dfy`, `path_split.dfy`, `path_rfc.dfy` | when a remembered index goes stale, and what a repair there does to a segment; section 5.2.4 of RFC 3986 |
| `path_theorems.dfy`, `path_verdict.dfy` | the results for paths |
| `char_sets.dfy`, `path_text.dfy`, `host_text.dfy` | the character sets written out, and paths and hosts read as plain text: which bytes come out raw, escaped or folded |
| `path_relative.dfy`, `path_merge.dfy` | relative paths, and resolving against canonicalizing the merged path |
| `path_examples.dfy` | inputs where a promise fails |
| `ipv4.dfy`, `ipv6.dfy`, `ipv6_number.dfy`, `ipv6_print.dfy`, `host.dfy` | IP literals and hosts |
| `ipv4_text.dfy`, `ipv6_text.dfy` | IP literals measured against digits written out, sums and places |
| `file_path.dfy` | `DirName`, `BaseName`, `GetComponents`, `ReferencesParent` |
| `base64.dfy`, `base64_codec.dfy`, `base64_text.dfy` | the encoding by groups, the loops over characters, and the printed alphabets |
| `nonce.dfy`, `utf.dfy`, `canon_output.dfy` | nonces, UTF appenders, the output buffer |

Text is 8-bit. Output that the source appends to is a sequence passed in and returned, except
where the source fills a fixed array (IP addresses) or the object itself is the subject
(`FilePath`, `Nonce`, `CanonOutput`). Loops are methods proved against functions that do not
mention the loop. Many of them are followed through a continuation: what the input still to come
makes of the state reached so far.

## Where code and documentation disagree

The model follows the code.

- The repair of nested escapes relies on its caller to pass an index that names a `%` still in the
  output (`quiche/googleurl/url/url_canon_path.cc:190-193`). Rewinding on `..` does not reset that
  index. `/a%/../%3C%41` becomes `/%325CA`, where the repair hits the inside of the escape `%3C`.
  `PathTheorems.StaleRepairs` counts the repairs at such an index that survive to the output. The
  output is the specified text if and only if that count is zero. `PathTheorems.Torn` says that one
  of them hit the first digit of an escape in a way that changes how it reads; running the
  canonicalizer again changes the text if and only if that holds. Neither can happen unless a `..`
  segment stands behind a segment with a stray `%`, one that starts no escape.
- For the same reason, resolving a relative path and canonicalizing the merged path can differ. They
  agree on every relative path if and only if the base, up to its last slash, has no stray `%`.
- The fuzzer expects a second run to be valid when the first was
  (`quiche/googleurl/url/gurl_fuzzer.cc:20-29`). That holds for every path. The converse does
  not: `/%00/..` fails at first, and its output `/` succeeds. The second run succeeds if and only
  if every NUL was in a removed segment or hidden by a stale repair inside `%00`.
- `DirName` keeps two separators as an alternate root (`quiche/base/files/file_path.cc:101-105`).
  Three separators in front of a name are taken for that root too, although three separators alone
  or four in front of a name are the ordinary root.
- A Base64 text of nothing but one or two padding characters makes the index of the last character
  wrap around. It does no harm: the first character ends the loop.

## Model

| member | source | states |
|---|---|---|
| `Escapes.DecodeEscapeAll` | quiche/googleurl/url/url_canon_internal.h:132-138 | decoding the escapes written for any bytes gives those bytes |
| `PathTokens.DecodeIsValues` | quiche/googleurl/url/url_canon_internal.h:308-329 | percent-decoding a path, with `\` read as `/`, gives the values of its tokens, for all bytes |
| `PathTokens.RenderMeaning` | quiche/googleurl/url/url_canon_path.cc:195-235 | the text with nested escapes repaired percent-decodes to the values of the tokens |
| `PathTokens.RenderIdempotent` | quiche/googleurl/url/url_canon_path.cc:195-378 | lexing that text and writing it again changes nothing |
| `PathBuffer.GoResolve` | quiche/googleurl/url/url_canon_path.cc:276-319 | the rewinding buffer holds, frame by frame, the segments that a pure stack of segments holds, each with its count of stale repairs |
| `PathCanon.BackUpToPreviousSlash` | quiche/googleurl/url/url_canon_path.cc:149-165 | the output is cut behind the slash before the last one, and never into the first slash of the path or anything in front of it |
| `PathCanon.CheckForNestedEscapes` | quiche/googleurl/url/url_canon_path.cc:195-235 | `25` goes behind the remembered index exactly when the two characters there and the next one would read as an escape |
| `PathCanon.DoPartialPath` | quiche/googleurl/url/url_canon_path.cc:251-378 | the output is what was there before the path, then the text of the structural run over the tokens; success exactly when no token is a NUL |
| `PathTheorems.DoPath` | quiche/googleurl/url/url_canon_path.cc:381-402 | the same for a whole path, with the slash that is supplied and the range that is reported, also when the path is missing |
| `PathTheorems.CanonicalIsReference` | quiche/googleurl/url/url_canon_path.cc:251-402 | for every path the output is longer than the specified text by two characters for each surviving stale repair, and equal to it if and only if there is none |
| `PathTheorems.ReferenceIsRfc` | quiche/googleurl/url/url_canon_path.cc:276-319 | the specified text removes dot segments as steps A to E of section 5.2.4 of RFC 3986 do |
| `PathRfc.NormalizeIsRfc` | quiche/googleurl/url/url_canon_path.cc:103-165 | the stack of segments and the RFC's two buffers agree on every rooted path |
| `PathTheorems.QuietPath` | quiche/googleurl/url/url_canon_path.cc:304-307 | no stale repair unless a `..` segment stands behind a segment with a stray `%` |
| `PathTheorems.MeaningKept` | quiche/googleurl/url/url_canon_path.cc:195-378 | for every path without dot segments, percent-decoding the output gives what percent-decoding the input gives |
| `PathTheorems.MeaningOfRest` | quiche/googleurl/url/url_canon_path.cc:251-378 | for every path the output stands for two more bytes per surviving stale repair than remain when dot segments are removed, and for exactly these if and only if there is none |
| `PathTheorems.OutputShape` | quiche/googleurl/url/url_canon_path.cc:251-402 | for every input, stale repairs or not: the output starts with `/`, has no `\`, and no segment of it is `.` or `..`, escaped or not |
| `PathText.OutputListed` | quiche/googleurl/url/url_canon_path.cc:53-78 | for every path, every byte of the output is `/`, `%`, or one of the characters that may stand raw in a path; these are written out and not taken from the table |
| `PathText.OutputText` | quiche/googleurl/url/url_canon_path.cc:251-402 | besides, no segment of the output percent-decodes to `.` or `..`, and no escape in it stands for a letter, a digit, `-`, `.`, `_` or `~`, the latter if and only if no surviving stale repair tore an escape |
| `PathText.CanonicalIff` | quiche/googleurl/url/url_canon_path.cc:251-402 | the texts that canonicalization leaves alone, read as plain text: rooted, of such bytes only, without such escapes and without segments that decode to dots, and no others |
| `PathText.DotTextIff` | quiche/googleurl/url/url_canon_path.cc:103-143 | a segment is the current or the upper directory if and only if it percent-decodes to `.` or `..` |
| `PathText.SuccessText` | quiche/googleurl/url/url_canon_path.cc:340-364 | success if and only if percent-decoding the path gives no NUL |
| `PathText.OrdinaryText` | quiche/googleurl/url/url_canon_path.cc:320-378 | a path without dot segments and stray `%` comes out byte by byte: `\` as `/`, escapes of letters, digits, `-`, `.`, `_`, `~` as these, other escapes as they are, listed bytes as they are, all others as `%` and two upper-case digits |
| `PathText.OneCharacter` | quiche/googleurl/url/url_canon_path.cc:53-78 | the path of a slash and one character, for each character that is no slash, dot or `%`: itself if listed, else its escape |
| `PathTheorems.Idempotent` | quiche/googleurl/url/gurl_fuzzer.cc:20-29 | a second run leaves the text alone if and only if no surviving stale repair tore an escape, so always when there was none |
| `PathVerdict.AcceptedStaysAccepted` | quiche/googleurl/url/gurl_fuzzer.cc:20-29 | for every path, stale repairs or not: if the first run succeeds, the second does |
| `PathVerdict.VerdictAgain` | quiche/googleurl/url/url_canon_path.cc:340-364 | for every path the second run succeeds if and only if the NULs left when dot segments are removed are as many as stale repairs have hidden |
| `PathCounts.GoCounted` | quiche/googleurl/url/url_canon_path.cc:195-235 | every segment of every run reads as two characters more than it should per stale repair, and as one NUL fewer if the repair hit an escaped NUL |
| `PathExamples.StaleMarkerExample` | quiche/googleurl/url/url_canon_path.cc:190-193 | the path `/a%/../%3C%41`: its output, its one stale repair, and that a second run changes it |
| `PathExamples.VerdictExample` | quiche/googleurl/url/url_canon_path.cc:340-364 | the path `/%00/..` fails and its output succeeds |
| `PathExamples.MergeExample` | quiche/googleurl/url/url_canon_relative.cc:354-363 | a canonical base and a relative path for which resolving and canonicalizing the merged path differ |
| `PathRelative.CopyToLastSlash` | quiche/googleurl/url/url_canon_relative.cc:214-232 | the base up to its last slash is appended, nothing if it has none |
| `PathRelative.ResolvePath` | quiche/googleurl/url/url_canon_relative.cc:346-363 | an absolute path is canonicalized on its own, a relative one behind the base up to its last slash; success depends on the relative part only |
| `PathRelative.OutputIsCanonical` | quiche/googleurl/url/url_canon_path.cc:381-402 | outputs are the canonical paths, except the torn ones |
| `PathMerge.MergedRun` | quiche/googleurl/url/url_canon_path.cc:251-378 | for a canonical base, the run on the merged path is the run on the relative part from the base's directories, with the last stray `%` of these remembered |
| `PathMerge.AgreeIffStrayFree` | quiche/googleurl/url/url_canon_relative.cc:354-363 | for a canonical base, resolving gives what canonicalizing the merged path gives on every relative path if and only if the base up to its last slash has no stray `%` |
| `PathMerge.StrayFreeBaseAgrees` | quiche/googleurl/url/url_canon_relative.cc:354-363 | then the two runs leave the same buffer, stale repairs included |
| `PathMerge.StrayTellsApart` | quiche/googleurl/url/url_canon_relative.cc:354-363 | otherwise some relative path without a stray `%` gets different texts |
| `PathMerge.NoUpAgrees` | quiche/googleurl/url/url_canon_relative.cc:354-363 | for a relative path without `..` both give the specified text of the merged path |
| `PathMerge.SteadyMergeIff` | quiche/googleurl/url/url_canon_relative.cc:354-363 | for a relative path with no `..` behind a stray `%`, resolving gives the specified text, and the two agree if and only if the merged run has no surviving stale repair |
| `PathMerge.MergeLaw` | quiche/googleurl/url/url_canon_relative.cc:354-363 | for every relative path: resolving gives the specified text if and only if it makes no stale repair; when one run makes none, the two agree if and only if the other makes none; they agree if and only if they do segment by segment, and then repaired the same segments |
| `PathMerge.BothRepaired` | quiche/googleurl/url/url_canon_relative.cc:354-363 | the converse of the last fails: for every base with a stray `%` in front of its last slash, some relative path gets one stale repair in either run, in the same segment, and different texts |
| `IPv4.FindIPv4Components` | quiche/googleurl/url/url_canon_ip.cc:34-81 | success exactly on one to four nonempty parts of IPv4 characters with at most one dot behind them, and these parts |
| `IPv4Text.ComponentsIff` | quiche/googleurl/url/url_canon_ip.cc:34-81 | a host has these components if and only if it is made of hexadecimal digits, `x`, `X` and dots and is one to four nonempty texts joined with single dots, perhaps with a dot at the end |
| `IPv4.CutIsHarmless` | quiche/googleurl/url/url_canon_ip.cc:120-155 | cutting a number without leading zeros to 16 digits changes neither whether it fits 32 bits nor, if it does, its value |
| `IPv4.CopyDigits` | quiche/googleurl/url/url_canon_ip.cc:125-141 | success exactly when all digits are of the radix, also those that are cut off |
| `IPv4.IPv4ComponentToNumber` | quiche/googleurl/url/url_canon_ip.cc:94-156 | family and value are those of the exact, unbounded number in its radix |
| `IPv4Text.NumberSpellings` | quiche/googleurl/url/url_canon_ip.cc:94-156 | for every n: its decimal digits, `0` and its octal digits, `0x` or `0X` and its hexadecimal digits in either case are all numbers, and their value is n |
| `IPv4Text.NumericIff` | quiche/googleurl/url/url_canon_ip.cc:100-141 | text without leading zero is a number if and only if it is all `0` to `9`, text behind `0` if and only if it is all `0` to `7`, text behind `0x` or `0X` if and only if it is all hexadecimal |
| `IPv4.SpreadLast` | quiche/googleurl/url/url_canon_ip.cc:213-224 | the last component fills the remaining bytes big-endian, and fits exactly when nothing is left over |
| `IPv4.IPv4AddressToNumber` | quiche/googleurl/url/url_canon_ip.cc:160-231 | although each component is cut to 16 digits and 32 bits: NEUTRAL unless all of one to four components are numbers; of n numbers, IPV4 if and only if each but the last is at most 255 and the last below 256^(5-n), else BROKEN; bytes and count are those of the exact numbers, and nothing else in the array changes |
| `IPv4Text.AddressSum` | quiche/googleurl/url/url_canon_ip.cc:160-231 | the four bytes of every IPv4 host, as one number, are the sum of its components: 2^24 times the first, 2^16 times the second, 256 times the third, as many as stand in front of the last, and the last |
| `IPv4.AppendIPv4Address` | quiche/googleurl/url/url_canon_ip.cc:598-609 | four decimal numbers with dots are appended |
| `IPv4.PrintParse` | quiche/googleurl/url/url_canon_ip.cc:598-609 | parsing the printed form of any four bytes gives these bytes |
| `IPv6Parse.ParseShow` | quiche/googleurl/url/url_canon_ip.cc:322-410 | every well-formed literal is parsed into its groups, the place of `::` and the embedded IPv4 text |
| `IPv6Parse.ParseSound` | quiche/googleurl/url/url_canon_ip.cc:322-410 | whatever is parsed is a well-formed literal spelled exactly like the input |
| `IPv6Number.DoParseIPv6` | quiche/googleurl/url/url_canon_ip.cc:322-410 | the scanning loop succeeds exactly on the literals of that grammar, with the same parts |
| `IPv6Number.CheckIPv6ComponentsSize` | quiche/googleurl/url/url_canon_ip.cc:418-442 | success exactly when the groups and the IPv4 part make 16 bytes, or fewer with `::` to fill them |
| `IPv6Number.IPv6HexComponentToNumber` | quiche/googleurl/url/url_canon_ip.cc:448-461 | the hexadecimal value of the group, below 2^16 |
| `IPv6Number.IPv6AddressToNumber` | quiche/googleurl/url/url_canon_ip.cc:466-524 | success exactly on the literals with an address, and then all 16 bytes are those of the address |
| `IPv6Number.WriteComponents` | quiche/googleurl/url/url_canon_ip.cc:490-509 | groups big-endian in order, zeros exactly where `::` stood, one byte after the other |
| `IPv6Number.WriteEmbedded` | quiche/googleurl/url/url_canon_ip.cc:511-521 | the embedded IPv4 value fills the last four bytes; success exactly when it is one |
| `IPv6Number.AddressIff` | quiche/googleurl/url/url_canon_ip.cc:466-524 | a host has the address b if and only if it is a well-formed bracketed literal of the right size that denotes b |
| `IPv6Text.AddressMeans` | quiche/googleurl/url/url_canon_ip.cc:466-524 | a literal has the address b if and only if its groups fit, each has the value that b has at its place, counted from the front up to `::` and from the end behind it, b is zero at the places of `::`, and the last four bytes of b are those of the embedded IPv4 host, if there is one |
| `IPv6Text.EmbeddedIsTwoGroups` | quiche/googleurl/url/url_canon_ip.cc:511-521 | whatever stands in front, an embedded IPv4 host denotes what two groups of the same thirty-two bits denote in its place |
| `IPv6Text.DottedIsTwoGroups` | quiche/googleurl/url/url_canon_ip.cc:511-521 | so for a dotted quad of any four bytes |
| `IPv6Print.ChooseIPv6ContractionRange` | quiche/googleurl/url/url_canon_ip.cc:529-558 | the leftmost longest run of at least two zero groups, or none |
| `IPv6Print.ContractionUnique` | quiche/googleurl/url/url_canon_ip.cc:529-558 | there is only one such range (sections 4.2.2 and 4.2.3 of RFC 5952) |
| `IPv6Print.AppendIPv6Address` | quiche/googleurl/url/url_canon_ip.cc:611-645 | the printed form of the address is appended |
| `IPv6Print.PrintShape` | quiche/googleurl/url/url_canon_ip.cc:611-645 | the printed form is the groups joined with colons, with `::` in place of exactly that range |
| `IPv6Text.PrintRuns` | quiche/googleurl/url/url_canon_ip.cc:611-645 | whatever stands between the colons of a printed address is nothing, or one to four of `0` to `9` and `a` to `f` that start with `0` only if they are `0` |
| `IPv6Text.PrintedLiteral` | quiche/googleurl/url/url_canon_ip.cc:611-645 | the printed form is a literal of the address in such groups, without IPv4 part, that contracts exactly the leftmost longest run of at least two zero groups |
| `IPv6Text.PrintOnly` | quiche/googleurl/url/url_canon_ip.cc:611-645 | no other text is such a literal of the address |
| `IPv6Print.PrintParse6` | quiche/googleurl/url/url_canon_ip.cc:611-645 | parsing the bracketed printed form of any 16 bytes gives these bytes |
| `IPv6Print.SameTextIff` | quiche/googleurl/url/url_canon_ip.cc:563-594 | two accepted literals get the same canonical text if and only if they denote the same bytes |
| `Host.DoSimpleHost` | quiche/googleurl/url/url_canon_host.cc:126-174 | text, success and the non-ASCII flag are those of the table applied to the decoded characters |
| `Host.SimpleHostAgain` | quiche/googleurl/url/url_canon_host.cc:45-68 | a second pass changes neither text nor success nor flag, for all bytes |
| `HostText.SimpleHostText` | quiche/googleurl/url/url_canon_host.cc:126-174 | the text is made of the percent-decoded characters one by one: capitals as small letters, the other listed characters as they are, the rest escaped; success if and only if no decoded character is forbidden, with both sets written out |
| `Host.CanonicalizeIPAddress` | quiche/googleurl/url/url_canon_ip.cc:660-670 | IPv4 first, then IPv6 unless broken; the canonical text only if it is an address; the count of IPv4 components |
| `Host.IPAddressAgain` | quiche/googleurl/url/url_canon_ip.cc:660-670 | the canonical text of an address is the canonical text of the same address |
| `Host.DoHost` | quiche/googleurl/url/url_canon_host.cc:344-380 | output, family, address, count of IPv4 components and reported range of a host that needs no IDN conversion, the rewinding and the missing range of an empty host included |
| `Host.HostAgain` | quiche/googleurl/url/url_canon_host.cc:344-380 | canonicalizing the output again changes neither text nor family nor address, also for hosts with invalid escapes |
| `HostText.HostCase` | quiche/googleurl/url/url_canon_host.cc:344-380 | hosts that differ only in the case of letters get the same result, escapes and IP literals included |
| `HostText.HostCapitals` | quiche/googleurl/url/url_canon_host.cc:344-380 | no output has a capital letter outside an escape |
| `Host.CountAgain` | quiche/googleurl/url/url_canon_host.cc:344-380 | the count of IPv4 components is four on the second run, whatever it was |
| `FilePaths.FilePath.constructor` | quiche/base/files/file_path.cc:43-47 | everything from the first NUL on is cut off |
| `FilePaths.FilePath.StripTrailingSeparatorsInternal` | quiche/base/files/file_path.cc:211-231 | trailing separators go; of separators only, two stay and any other number becomes one |
| `FilePaths.FilePath.DirName` | quiche/base/files/file_path.cc:79-113 | the directory part as the string functions give it |
| `FilePaths.DirOfName` | quiche/base/files/file_path.cc:79-136 | of directories d and a name b: the base is b, and the directory is `.`, the trimmed d, `//` for two or three separators, `/` for any other number |
| `FilePaths.DirOfSeparators` | quiche/base/files/file_path.cc:79-136 | a path of separators is its own directory and base, as `//` if there are two, else as `/` |
| `FilePaths.FilePath.BaseName` | quiche/base/files/file_path.cc:115-136 | the last name |
| `FilePaths.DirDecreases` | quiche/base/files/file_path.cc:163-168 | `DirName` stays at `.`, `/` and `//` and nowhere else, and makes every other path lighter, so the walk ends |
| `FilePaths.WalkIsComponents` | quiche/base/files/file_path.cc:149-182 | walking up by `DirName` collects the root, if any, then the maximal separator-free runs in order; a leading `.` is left out, unless it is all there is and separators follow it |
| `FilePaths.FilePath.GetComponents` | quiche/base/files/file_path.cc:149-182 | the loop ends on every path and returns these components |
| `FilePaths.FilePath.ReferencesParent` | quiche/base/files/file_path.cc:184-208 | true if and only if some maximal separator-free run has `..` in it and only dots and white space |
| `FilePaths.NoMentionNoReference` | quiche/base/files/file_path.cc:185-189 | the shortcut is right: without `..` in the path no run refers to the parent |
| `FilePaths.ReferencesAgree` | quiche/base/files/file_path.cc:194-207 | the root and the left-out `.` do not matter to the answer |
| `Base64.DecodedEncoded` | quiche/platform/base64.cc:53-142 | decoding undoes encoding, in both alphabets |
| `Base64.EncodedDecoded` | quiche/platform/base64.cc:53-142 | whatever decodes is the encoding of what it decodes to |
| `Base64.PaddedExactly` | quiche/platform/base64.cc:146-190 | with required padding, text decodes to d if and only if it is the padded encoding of d (section 3.5 of RFC 4648) |
| `Base64.FreelyPaddedExactly` | quiche/platform/base64.cc:153-190 | without required padding, if and only if it is the encoding of d and at most two padding characters |
| `Base64.UnpaddedExactly` | quiche/platform/base64.cc:213-233 | without padding, if and only if it is the encoding of d |
| `Base64Text.CapitalLetters` | quiche/platform/base64.cc:16-17 | values 0 to 25 are written as the capital letters in order, in both alphabets |
| `Base64Text.SmallLetters` | quiche/platform/base64.cc:16-17 | values 26 to 51 as the small letters |
| `Base64Text.DecimalDigits` | quiche/platform/base64.cc:16-17 | values 52 to 61 as the digits |
| `Base64Text.LastTwo` | quiche/platform/base64.cc:36-37 | values 62 and 63 as `+` and `/`, or as `-` and `_` |
| `Base64Text.ReverseIff` | quiche/platform/base64.cc:21-50 | the decoding table holds v for a character if and only if the encoding table holds that character for v, and 64 if and only if no value is written so |
| `Base64Text.SameBits` | quiche/platform/base64.cc:104-121 | three bytes and the four values they are written as are the same twenty-four bits |
| `Base64Codec.EncodeBase` | quiche/platform/base64.cc:104-121 | one byte writes the characters that its six-bit fields complete and carries the other bits; table indexes stay below 64 |
| `Base64Codec.EncodeRestIsEncoded` | quiche/platform/base64.cc:104-142 | byte-wise encoding with carried bits is encoding by groups of three |
| `Base64Codec.Encode` | quiche/platform/base64.cc:196-211 | the loop writes the encoding of section 4 or 5 of RFC 4648, padded or not |
| `Base64Codec.DecodeBase` | quiche/platform/base64.cc:53-78 | fails exactly outside the alphabet, else fills the byte begun and begins the next |
| `Base64Codec.DecodeLast` | quiche/platform/base64.cc:80-102 | finishes the text, failing when no byte is begun or an unused bit is set |
| `Base64Codec.DecodeRestIsDecoded` | quiche/platform/base64.cc:53-102 | character-wise decoding into the last byte is decoding by groups of four |
| `Base64Codec.DecodeStandard` | quiche/platform/base64.cc:153-190 | the loop decodes the text without its padding, also when the index of the last character wraps around |
| `Base64Codec.DecodePadded` | quiche/platform/base64.cc:146-151 | a nonempty result re-encodes to exactly the input, and the padded encoding of any d gives d |
| `Base64Codec.DecodeWithoutPadding` | quiche/platform/base64.cc:153-190 | the same up to at most two padding characters |
| `Base64Codec.DecodeUrl` | quiche/platform/base64.cc:213-233 | the same in the URL alphabet, without padding |
| `NonceMachine.LazyRefinesEager` | quiche/googleurl/url/origin.cc:392-445 | every run of every operation shows what nonces with an identity from the start would show, for some distinct nonempty tokens, one to an identity |
| `NonceMachine.EqualIffSameIdentity` | quiche/googleurl/url/origin.cc:436-441 | after every run `==` holds if and only if both objects have the same identity; copying shares it, moving transfers it and leaves a new one |
| `NonceMachine.StepRelated` | quiche/googleurl/url/origin.cc:397-441 | one operation keeps the relation between tokens and identities, and shows the same in both |
| `Nonces.Nonce.constructor` | quiche/googleurl/url/origin.cc:392-392 | a new nonce has no token: the construction step |
| `Nonces.Nonce.GetToken` | quiche/googleurl/url/origin.cc:397-404 | looking at the token draws it if there is none: the read step on all objects together |
| `Nonces.Nonce.Copy` | quiche/googleurl/url/origin.cc:411-411 | copying draws the other's token first: the copy step |
| `Nonces.Nonce.Assign` | quiche/googleurl/url/origin.cc:413-417 | the same for assignment, to itself too |
| `Nonces.Nonce.Move` | quiche/googleurl/url/origin.cc:420-422 | moving draws nothing and resets the other: the move step |
| `Nonces.Nonce.MoveFrom` | quiche/googleurl/url/origin.cc:424-428 | the same for assignment, to itself too |
| `Nonces.Nonce.IsLess` | quiche/googleurl/url/origin.cc:430-434 | comparing draws both tokens, in either order: the comparison step and its verdict |
| `Nonces.Nonce.Equals` | quiche/googleurl/url/origin.cc:436-441 | equality draws nothing: the verdict of the machine |
| `Utf.DoAppendUTF8` | quiche/googleurl/url/url_canon_internal.h:165-219 | the UTF-8 bytes of the code point are appended, raw or each percent-escaped |
| `Utf.AppendUTF16Value` | quiche/googleurl/url/url_canon_internal.h:238-246 | the UTF-16 units of the code point are appended |
| `Utf.Decode8Of` | quiche/googleurl/url/url_canon_internal.h:165-196 | the UTF-8 bytes of any scalar values decode back to them (section 3 of RFC 3629) |
| `Utf.All8OfDecode` | quiche/googleurl/url/url_canon_internal.h:165-196 | whatever decodes is what is written for the scalar values it decodes to |
| `Utf.EscapedDecodes` | quiche/googleurl/url/url_canon_internal.h:217-219 | the percent-escaped form decodes back as well |
| `Utf.Decode16Of` | quiche/googleurl/url/url_canon_internal.h:238-246 | the UTF-16 units of any scalar values decode back to them (section 2.1 of RFC 2781) |
| `Utf.All16OfDecode` | quiche/googleurl/url/url_canon_internal.h:238-246 | whatever decodes is what is written for the scalar values it decodes to |
| `CanonOutputs.CanonOutput.constructor` | quiche/googleurl/url/url_canon.h:154-157 | an empty text, bounded by the first doubling of the capacity that reaches 2^30 |
| `CanonOutputs.CanonOutput.Resize` | quiche/googleurl/url/url_canon.h:163-171 | a new buffer with what fits of the old text |
| `CanonOutputs.CanonOutput.Grow` | quiche/googleurl/url/url_canon.h:129-140 | terminates, overflows no int, keeps text and bound, succeeds exactly when the bound allows it and then has the room asked for, and changes nothing when it fails |
| `CanonOutputs.CanonOutput.PushBack` | quiche/googleurl/url/url_canon.h:90-107 | one more character if the bound allows it, otherwise nothing |
| `CanonOutputs.CanonOutput.Append` | quiche/googleurl/url/url_canon.h:110-118 | the whole text if the bound allows it, otherwise nothing |
| `CanonOutputs.CanonOutput.SetLength` | quiche/googleurl/url/url_canon.h:84-86 | the text is shortened; the bound stays |
| `CanonOutputs.CanonOutput.ReserveSizeIfNeeded` | quiche/googleurl/url/url_canon.h:120-124 | the text stays; the bound is that of the new capacity |
| `CanonOutputs.Perform` | quiche/googleurl/url/url_canon.h:84-140 | any interleaving of these leaves what a plain sequence with the first buffer's bound holds |
| `CanonOutputs.NothingLostIff` | quiche/googleurl/url/url_canon.h:90-118 | a run of appends loses something if and only if all of it together exceeds the bound |

## Left out

- Non-ASCII hosts and IDN conversion: they rest on ICU; `Host.DoHost` covers the hosts that take the other branch.
- UTF-16 input of the path, host and IP code: the reader of wide characters is not part of this model.
- Whole-URL parsing, the GURL and SchemeHostPort wrappers, and the query and reference parts of relative resolution.
- Query, reference, user-info, mailto and path-URL escaping: single-table maps that would only add easy members.
- `Origin::Create`, serialization, and the nonce constructor that takes an existing token; token creation is an input that never repeats and is never empty.
- Windows branches: drive letters, UNC paths and wide file paths.
- The canonicalizers write to an unbounded sequence, not to the bounded buffer of `canon_output.dfy`.
- `strtoull`, `snprintf` and `memcpy` are their mathematical meaning; running out of memory is not modelled.
- PathMerge.MergeLaw: when both runs make stale repairs in the same segments, agreement is stated by the segments' texts and not by a condition on the input, because the two then remember different indexes and may repair at different places.
- PathRelative.ResolvePath: the base path starts with `/` and has no `\`, as in the canonical base URL that the source requires.
- CanonOutputs.CanonOutput.Append: the text appended is a value, so it is not a part of the buffer itself.
- Utf.DoAppendUTF8: bit fields are joined by addition and shifted by division, which is the same because they are disjoint.
- The comparison of a character with 0x80 in `CheckForNestedEscapes` is modelled on unsigned bytes; on signed ones the outcome is the same, because such a character is no digit.
