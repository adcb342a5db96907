# URL canonicalization and the task loop

A model, with proofs, of two parts of the crawler: the URL library in `src/chromium/url` (8-bit strings, the branches
that are not for Windows) and the POSIX task loop in `src/blinkit/posix`.

Check it with `dafny verify dfyconfig.toml` (Dafny 4.11).

## What is modelled

Each component has a module that says what it computes, as functions over bytes, with the theorems about them, and a
module of methods that do it the way the program does: loops, buffers, and an output that is appended to, rewound and
overwritten. Every method is proved against the functions.

- **Paths.** `PathSpec`, `Path`: the character table, dots, escapes, and the repair of nested escapes. `PathInvariant`
  has what every step keeps, `PathTraces` a scan of the input that foretells which escapes are left, `PathMended` the
  scanner as its comments describe it, `PathIdempotence` a second run, `PathDots` the comparison with the routine of
  RFC 3986, `PathMerge` relative paths.
- **Characters.** `Characters` has alphabets, decoding and escaping as the standard writes them out, without the tables of
  the program. `PathCharacters`, `HostCharacters`, `EtcCharacters`, `IPv4Notations` and `UrlMeaning` measure each
  component, and the whole URL, against them.
- **Addresses.** `Numbers`, `IPv4Spec`, `IPv4`, `IPv6Spec`, `IPv6Print`, `IPv6`: the loose parsers, the grammar of IPv6
  literals, and the printers.
- **Hosts.** `HostSpec`, `Host`.
- **The small components.** `EtcSpec`, `Etc`: scheme, user info, port, query, reference.
- **The parser.** `ParseSpec`, `Parse`: how a standard URL is split into ranges; `Splitting`: an authority with anything
  in it.
- **Whole URLs.** `UrlText` is a URL as the text of its parts with their ranges; `StandardUrlSpec`, `StandardUrl` put a
  canonical URL together.
- **Relative resolution.** `RelativeSpec`, `Relative`. `Rfc3986` has references and their targets as the standard
  defines them, without the parser of the library, and when the two agree.
- **Origins.** `SchemeHostPortSpec`, `SchemeHostPorts`.
- **The output buffer.** `CanonOutputs` is the output as a list of bytes, which all of the above write to; `RawBuffer`
  shows that the growable array behind it is such a list.
- **The task loop.** `TaskLoopSpec` is a transition system over every interleaving of one runner and any number of
  calls; `TaskLoops` has the fields of the object and the stretches of code that hold the mutex.

## Where the code does not do what it says

- The repair of nested escapes (`src/chromium/url/url_canon_path.cc:167-194`) is said to be run only for a percent sign
  at the end of the output. The position is not forgotten when ".." rewinds the output (304-308), so the repair can hit
  other text. Two things can go wrong, and each has its exact condition, read off the input:
  - Characters that were never there are put in, as in `PathDots.StalePercentCorruptsText`. `KeepsStaleRepair` is the
    condition: the output differs from that of RFC 3986 exactly then (`PathDots.PathIsRemoveDotSegmentsIff`), and is
    otherwise that of a scanner that forgets the position (`PathMended`).
  - An escape that has been kept on purpose is torn, as in `PathIdempotence.StalePercentBreaksIdempotence`.
    `LeavesTornEscape` is the condition: a second run changes the text exactly then (`PathIdempotence.IdempotentIff`).
  Neither happens to a path without a ".." segment behind a malformed percent sign.
- A NUL makes a path fail even when it is rewound, so a failed path can have an output that is accepted
  (`PathIdempotence.RewoundNulChangesVerdict`). `VerdictStableIff` says when.
- Relative resolution is not that of section 5.2 of RFC 3986 for all references. More than two slashes, or backslashes
  in their place, are all skipped (`src/chromium/url/url_canon_relative.cc:483-504`), so "///g" brings the host g instead
  of an empty one; a path that begins with a backslash is absolute; and a malformed percent sign in the directory of the
  base makes appending differ from merging for some references with a "..", and an escape torn before does so for
  others. The condition is `Rfc3986.Conforms`. It is exact for every single reference that has no relative path
  (`ResolutionAgreesIff`), and for every base, over all references that have one (`RelativePathsAgreeIff`).
- A URL printed with a reference that ends in a space is trimmed by the parser, and a URL without a scheme is printed
  without the two slashes. Apart from these and torn escapes, every valid URL is parsed back and stable.
- An origin whose scheme has an upper-case letter is valid, but its port is never written
  (`src/chromium/url/scheme_host_port.cc:157-162`).
- A task that `Run` has taken is dropped if `Exit` comes in before the unlocked read
  (`src/blinkit/posix/task_loop.cpp:93`). It is neither run nor freed.

## Model

| member | source | states |
|---|---|---|
| Bytes.HexCharToValue | src/chromium/url/url_canon_internal.h:99-102 | the value of a hexadecimal digit of either case, by way of the region table |
| Bytes.HexCharLookup | src/chromium/url/url_canon_internal.cc:220-223 | the upper-case digit of a value, which reads back as that value |
| Bytes.Escaped | src/chromium/url/url_canon_internal.h:132-137 | three characters that begin with a percent sign and decode to the byte they were written for |
| Bytes.IsDot | src/chromium/url/url_canon_internal.h:107-118 | 1 exactly for a literal dot, 3 exactly for a percent sign whose escape decodes to a dot, never past the end |
| CanonOutputs.CanonOutput.AppendEscapedChar | src/chromium/url/url_canon_internal.h:132-137 | the output is the old one and the three characters of the escape |
| CanonOutputs.CanonOutput.SetLength | src/chromium/url/url_canon.h:84-86 | backing up keeps exactly the front of the output |
| PathDots.ClassifiedBySegment | src/chromium/url/url_canon_path.cc:102-134 | the look ahead behind a dot tells exactly whether the segment it begins is "." or ".." once backslashes and escaped dots are read as what they stand for |
| PathDots.BackUpRemoves | src/chromium/url/url_canon_path.cc:149-165 | rewinding an output that ends in a slash removes exactly its last segment, as the standard removes it from an output buffer |
| Path.BackUpToPreviousSlash | src/chromium/url/url_canon_path.cc:149-165 | the search loop rewinds the output to the last slash before the final one, leaves everything before the path alone and never goes below the root |
| Path.CheckForNestedEscapes | src/chromium/url/url_canon_path.cc:194-235 | the push, overwrite and undo steps come to putting "25" behind the remembered percent sign exactly when two hexadecimal digits follow it |
| Path.HandleDot | src/chromium/url/url_canon_path.cc:276-314 | a dot segment moves the input position, or rewinds the output, or is written, as the specification says |
| Path.HandlePercent | src/chromium/url/url_canon_path.cc:320-364 | an escape is resolved or kept, a malformed percent sign is written and its position remembered |
| Path.HandleSpecial | src/chromium/url/url_canon_path.cc:270-369 | the dispatch on a special character |
| Path.DoPartialPath | src/chromium/url/url_canon_path.cc:250-378 | for every text already in the output: everything before the path is untouched and the path is that of the scanner, with its success |
| Path.DoPath | src/chromium/url/url_canon_path.cc:380-402 | the canonical path is appended, with a slash made up in front where there is none, and the range reported is where it is |
| PathInvariant.StepKeeps | src/chromium/url/url_canon_path.cc:250-378 | every round of the loop keeps: a leading slash, the alphabet of the output, the state of every percent sign in it, and no dot segment |
| PathInvariant.ScanKeeps | src/chromium/url/url_canon_path.cc:250-378 | the same over whole runs |
| PathMerge.ScanKeepsRoot | src/chromium/url/url_canon_path.cc:149-165 | for every input and every output so far that begins with a slash, the slash at the root is never removed or overwritten |
| PathCharacters.OneCharacterPath | src/chromium/url/url_canon_path.cc:53-89 | every byte behind a slash but the dot, the slash, the backslash and the percent sign: letters, digits and the listed marks stay, all others are escaped |
| PathCharacters.OneEscapePath | src/chromium/url/url_canon_path.cc:320-351 | every escape behind a slash, but that of a dot: it is resolved exactly for letters, digits, "-", "_" and "~", and kept as it is for all others |
| PathCharacters.OnlyPathCharacters | src/chromium/url/url_canon_path.cc:53-89 | nothing but the listed characters, dots, slashes and percent signs is ever written |
| PathCharacters.PlainPathIsKept | src/chromium/url/url_canon_path.cc:250-402 | a path over the listed characters, from the root and without dot segments, is its own canonical form |
| PathCharacters.NormalizedIsDecoded | src/chromium/url/url_canon_path.cc:167-235 | for every path: normalizing its characters, with the repair of nested escapes, does not change what it decodes to, but for backslashes |
| PathCharacters.PathIsDecoded | src/chromium/url/url_canon_path.cc:250-402 | a path without dot segments on which no stale repair is kept decodes to what it decoded to before, but for backslashes and a slash made up in front |
| PathIdempotence.PathResult | src/chromium/url/url_canon_path.cc:250-402 | for every input: no "." or ".." segment is left, an escape in the output decodes to a character that should be plain exactly where a repair has torn it, and a successful path has no escaped NUL |
| PathTraces.TraceIsExact | src/chromium/url/url_canon_path.cc:195-235 | a scan of the input that keeps only a length, the positions of slashes and of a few escapes tells exactly which escapes of the output are torn and which stand for NUL |
| PathIdempotence.FixedIffNoUnescapable | src/chromium/url/url_canon_path.cc:251-402 | a canonical path is changed by another run if and only if it holds an escape that should be plain |
| PathIdempotence.IdempotentIff | src/chromium/url/url_canon_path.cc:195-235 | a second canonicalization changes nothing if and only if that scan of the input shows no torn escape, over all inputs |
| PathIdempotence.FirstVerdict | src/chromium/url/url_canon_path.cc:251-369 | a path is accepted if and only if it holds no NUL, plain or escaped, whatever is rewound later |
| PathIdempotence.SecondVerdict | src/chromium/url/url_canon_path.cc:337-350 | the second run succeeds if and only if the first left no escaped NUL, in the output or, equally, in the scan of the input; for every input |
| PathIdempotence.VerdictStableIff | src/chromium/url/url_canon_path.cc:251-402 | both runs have the same verdict if and only if the path holds no NUL, plain or escaped, or the scan of the input shows one that is left; a path accepted once is accepted again |
| PathIdempotence.RewoundNulChangesVerdict | src/chromium/url/url_canon_path.cc:304-308 | "/%00/.." fails and becomes "/", which is accepted |
| PathMended.OutputIsMendedAndMore | src/chromium/url/url_canon_path.cc:167-235 | for every path: what is written is what a scanner would write that forgets the percent sign when it is rewound, as the comments say, with the two characters of a repair put in at some places; and both succeed or fail alike |
| PathMended.OutputIsMendedIff | src/chromium/url/url_canon_path.cc:195-235 | nothing is put in if and only if two scans of the input, with and without the forgetting, end with the same length; over all paths |
| PathMended.PathIsMended | src/chromium/url/url_canon_path.cc:304-308 | so for every path without a ".." segment behind a malformed percent sign |
| PathIdempotence.MendedIsStable | src/chromium/url/url_canon_path.cc:251-402 | what the forgetful scanner writes is never changed by a second run |
| PathIdempotence.IdempotentWithoutUpAfterMalformed | src/chromium/url/url_canon_path.cc:251-402 | every path without a ".." segment behind a malformed percent sign is stable |
| PathIdempotence.StalePercentBreaksIdempotence | src/chromium/url/url_canon_path.cc:304-308 | "/a%/../%5C%41" becomes "/%525CA" and then "/R5CA": the remembered percent sign is not forgotten when the output is rewound |
| PathDots.MendedIsRemoveDotSegments | src/chromium/url/url_canon_path.cc:92-235 | for every path: rewinding in place and repairing what is still there gives what the two-buffer routine of section 5.2.4 of RFC 3986 gives on the path with its characters normalized and a malformed percent sign escaped exactly where two hexadecimal digits come to stand behind it |
| PathDots.PathIsRemoveDotSegmentsIff | src/chromium/url/url_canon_path.cc:92-235 | the program gives the result of that routine if and only if the two scans of the input end with the same length, over all paths; otherwise it gives that result with characters put in |
| PathDots.PathIsRemoveDotSegments | src/chromium/url/url_canon_path.cc:92-235 | so for every path without a ".." segment behind a malformed percent sign |
| PathDots.StalePercentCorruptsText | src/chromium/url/url_canon_path.cc:304-308 | "/%/../x%411" becomes "/x25A1" where the routine gives "/xA1": two characters are put into plain text, and a second run does not change it |
| PathMerge.MergeIsAppend | src/chromium/url/url_canon_relative.cc:314-323 | appending to a directory without malformed percent signs, or appending a reference without a ".." segment to any canonical directory, gives the same path as canonicalizing the merged text |
| PathMerge.MergeIffNoMalformedPercent | src/chromium/url/url_canon_relative.cc:314-323 | appending agrees with merging for every reference if and only if the directory has no malformed percent sign |
| IPv4.CopyDigits | src/chromium/url/url_canon_ip.cc:128-143 | all characters are checked, and at most sixteen digits are kept in the buffer |
| IPv4.ComponentToNumber | src/chromium/url/url_canon_ip.cc:94-156 | the exact value of a component of any length in base 8, 10 or 16, too big exactly above 2^32-1, or not a number |
| IPv4.FitsIn64Bits | src/chromium/url/url_canon_ip.cc:145-149 | what is kept in the buffer always fits 64 bits |
| IPv4.TruncationDecides | src/chromium/url/url_canon_ip.cc:125-155 | more than sixteen significant digits are too big both as a whole and truncated |
| IPv4.FindIPv4Components | src/chromium/url/url_canon_ip.cc:34-81 | the ranges found are those of one to four nonempty parts, a single trailing dot allowed, and unused entries are empty; the array is never indexed past 3 |
| IPv4.PackLast | src/chromium/url/url_canon_ip.cc:208-224 | the last part fills the remaining bytes |
| IPv4.Pack | src/chromium/url/url_canon_ip.cc:206-230 | accepted exactly if all parts but the last fit a byte and the last fits what is left; the bytes are then the positional sum |
| IPv4.AddressToNumber | src/chromium/url/url_canon_ip.cc:160-231 | family, bytes and number of components are those of the specification, for every text |
| IPv4.AppendIPv4Address | src/chromium/url/url_canon_ip.cc:598-609 | the four decimal numbers with dots between them |
| IPv4Spec.JoinReadsBack | src/chromium/url/url_canon_ip.cc:160-231 | parts joined by dots are read as the sum of their values by position |
| IPv4Spec.PrintedReadsBack | src/chromium/url/url_canon_ip.cc:598-609 | every four bytes are read back from their printed form, with four components |
| IPv4Notations.PartIsValue | src/chromium/url/url_canon_ip.cc:94-156 | for every part: what it stands for in a grammar with prefixes, digits and bases written out, or no number, or too big |
| IPv4Notations.WrittenReadsBack | src/chromium/url/url_canon_ip.cc:94-156 | every number written in decimal, with "0" in octal, or with "0x" or "0X" in hexadecimal is read as itself, or as too big above 2^32-1 |
| IPv4Notations.NotationsReadBack | src/chromium/url/url_canon_ip.cc:160-231 | one to four numbers of any size, each written in a base of its own, joined by dots: the address with the formula for that many parts, or BROKEN exactly if one is out of its range |
| IPv4Notations.NotationsReadBackWithDot | src/chromium/url/url_canon_ip.cc:34-81 | the same with one dot more at the end |
| IPv4Notations.PrintedIsDottedDecimal | src/chromium/url/url_canon_ip.cc:598-609 | four decimal numbers without leading zeros, with dots between them |
| IPv6.ParseIPv6 | src/chromium/url/url_canon_ip.cc:322-410 | the scanning loop accepts what the specification accepts, with the same groups, contraction and tail |
| IPv6.ComponentsSize | src/chromium/url/url_canon_ip.cc:418-442 | the number of bytes of the contraction, or none if the groups do not make 128 bits |
| IPv6.HexComponentToNumber | src/chromium/url/url_canon_ip.cc:448-461 | the value of a group, below 2^16 |
| IPv6.AddressToNumber6 | src/chromium/url/url_canon_ip.cc:466-524 | true exactly for a bracketed literal, and then all sixteen bytes are its value |
| IPv6.ChooseContractionRange | src/chromium/url/url_canon_ip.cc:529-558 | the range found by the loop, in bytes |
| IPv6.AppendIPv6Address | src/chromium/url/url_canon_ip.cc:611-645 | groups in hexadecimal, with the contraction in their place |
| IPv6Spec.ScanIsSound | src/chromium/url/url_canon_ip.cc:322-410 | what the scan accepts is in the grammar |
| IPv6Spec.ScanIsComplete | src/chromium/url/url_canon_ip.cc:322-410 | every text of the grammar is accepted, as its own parts |
| IPv6Spec.AcceptedIffLiteral | src/chromium/url/url_canon_ip.cc:466-524 | a bracketed text has an address if and only if it is one to four digit groups with at most one "::" and an optional IPv4 tail that make 128 bits, and the sixteen bytes are the value of that literal |
| IPv6Print.ContractionIsLeftmostLongest | src/chromium/url/url_canon_ip.cc:529-558 | the contraction is the leftmost longest run of at least two zero groups among all runs, or empty if there is none |
| IPv6Print.LeftmostLongestIsUnique | src/chromium/url/url_canon_ip.cc:529-558 | there is only one such range |
| IPv6Print.PrintedReadsBack6 | src/chromium/url/url_canon_ip.cc:611-645 | every sixteen bytes are read back from their printed form |
| IPv6Print.PrintingIsInjective | src/chromium/url/url_canon_ip.cc:611-645 | different addresses are printed differently |
| IPv6Print.PrintedIsShort | src/chromium/url/url_canon_ip.cc:611-645 | every address is printed as a literal of the grammar with lower-case digits, no leading zeros and no dotted tail |
| Host.CanonicalizeIPv4 | src/chromium/url/url_canon_ip.cc:236-257 | a decision and its address for a text that looks like an IPv4 address, none for one that does not |
| Host.CanonicalizeIPv6 | src/chromium/url/url_canon_ip.cc:563-594 | the bracketed canonical form, or BROKEN exactly if a bracket or colon occurs in a text that is no address |
| Host.CanonicalizeIPAddress | src/chromium/url/url_canon_ip.cc:660-670 | the family, the text and the address bytes |
| Host.ScanHostname | src/chromium/url/url_canon_host.cc:78-91 | whether there are non-ASCII characters and percent signs |
| Host.DoSimpleHost | src/chromium/url/url_canon_host.cc:115-164 | text, success and the non-ASCII flag of the loop over all characters |
| Host.DoHost | src/chromium/url/url_canon_host.cc:312-361 | the output is rewound and overwritten when the host is an address in another form; family, text and range |
| HostSpec.SimpleHostIdempotent | src/chromium/url/url_canon_host.cc:115-164 | a second pass over the characters gives the same text, success and flag |
| HostSpec.AddressIsFixed | src/chromium/url/url_canon_ip.cc:660-670 | a printed address is recognized again and printed the same |
| HostSpec.HostIdempotent | src/chromium/url/url_canon_host.cc:45-68 | for every host not left to the IDN conversion, a second run gives the same text and the same family |
| HostSpec.PlainNameIsKept | src/chromium/url/url_canon_host.cc:45-68 | an ordinary name is NEUTRAL and stays as it is |
| HostCharacters.SimpleHostMeans | src/chromium/url/url_canon_host.cc:53-164 | for every host: it is decoded, lower-cased, and escaped character by character, with the characters that stay, are escaped or are refused written out |
| HostCharacters.OneCharacterHost | src/chromium/url/url_canon_host.cc:53-70 | every ASCII character but the digits as a host of its own, plain or escaped: text and family |
| HostCharacters.HostIgnoresCase | src/chromium/url/url_canon_host.cc:53-70 | a host in lower case is the same host, escapes included |
| HostCharacters.SameDecodedSameHost | src/chromium/url/url_canon_host.cc:115-164 | two hosts that decode to the same characters but for their case are the same host |
| HostCharacters.NeedsIdnIff | src/chromium/url/url_canon_host.cc:312-345 | which hosts are left to the IDN conversion, by what they decode to |
| Etc.DoScheme | src/chromium/url/url_canon_etc.cc:84-141 | lower-cased scheme and a colon, with invalid characters escaped and reported |
| Etc.DoUserInfo | src/chromium/url/url_canon_etc.cc:148-185 | empty parts are stripped, a password keeps an empty user name, and the ranges are where the parts are |
| Etc.DoParsePort | src/chromium/url/third_party/mozilla/url_parse.cc:571-612 | the decimal value of any number of digits up to 65535, invalid otherwise, unspecified for an empty port |
| Etc.DoPort | src/chromium/url/url_canon_etc.cc:194-229 | the port is written unless it is unspecified or the default; an invalid one is copied and reported |
| Etc.AppendStringOfType | src/chromium/url/url_canon_internal.cc:20-40 | the loop over ASCII characters keeps those of the type and escapes the others |
| Etc.AppendInvalidNarrowString | src/chromium/url/url_canon_internal.cc:45-62 | only blanks and control characters are escaped |
| Etc.DoCanonicalizeQuery | src/chromium/url/url_canon_query.cc:118-134 | the mark and the escaped query, or nothing |
| Etc.DoCanonicalizeRef | src/chromium/url/url_canon_etc.cc:232-273 | NULs are dropped and control characters escaped |
| EtcSpec.SchemeIdempotent | src/chromium/url/url_canon_etc.cc:84-141 | a valid scheme is lower-cased, holds no colon, and stays as it is |
| EtcSpec.TextOfTypeIdempotent | src/chromium/url/url_canon_internal.cc:20-40 | escaping once is enough |
| EtcSpec.UserInfoIdempotent | src/chromium/url/url_canon_etc.cc:148-185 | a second run keeps both parts, and neither holds a delimiter |
| EtcSpec.PortIdempotent | src/chromium/url/url_canon_etc.cc:194-229 | a valid port is written as digits that give the same port again |
| EtcSpec.RefIdempotent | src/chromium/url/url_canon_etc.cc:232-273 | a canonical reference has no control characters and stays as it is |
| EtcSpec.RefEnd | src/chromium/url/url_canon_etc.cc:250-268 | a canonical reference ends in a blank exactly if only NULs follow the last space of the original |
| EtcCharacters.SchemeIsLowerCase | src/chromium/url/url_canon_etc.cc:59-118 | a scheme is accepted exactly if it begins with a letter and goes on with letters, digits, "+", "-" and ".", and is written in lower case |
| EtcCharacters.SchemeIsShown | src/chromium/url/url_canon_etc.cc:84-141 | what is written for every scheme, valid or not |
| EtcCharacters.UserInfoIsKept | src/chromium/url/url_canon_etc.cc:148-185 | the user name is there exactly if either part has characters, the password exactly if it has some; both are escaped but for the listed characters and decode to what they were |
| EtcCharacters.UserInfoIsFoundAgain | src/chromium/url/url_canon_etc.cc:148-185 | a user name and a password without percent signs are given back by decoding |
| EtcCharacters.QueryIsKept | src/chromium/url/url_canon_query.cc:57-134 | a query is there exactly if it was, escaped but for the listed characters, and decodes to what it was |
| EtcCharacters.RefIsKept | src/chromium/url/url_canon_etc.cc:232-273 | a reference is there exactly if it was, without NULs, with control characters escaped, and decodes to what it was without NULs |
| EtcCharacters.PortIsNumber | src/chromium/url/url_canon_etc.cc:194-229 | decimal digits up to 65535 are printed as that number, unless it is the default; any other text is invalid; no text is no port |
| EtcCharacters.InvalidPortIsKept | src/chromium/url/url_canon_internal.cc:45-62 | an invalid port is shown with blanks and control characters escaped, and decodes to what it was |
| Parse.TrimURL | src/chromium/url/url_parse_internal.h:33-48 | the first and the last character that is no blank |
| Parse.ExtractScheme | src/chromium/url/third_party/mozilla/url_parse.cc:246-265 | the range up to the first colon |
| Parse.ParseUserInfo | src/chromium/url/third_party/mozilla/url_parse.cc:70-90 | split at the first colon |
| Parse.ParseServerInfo | src/chromium/url/third_party/mozilla/url_parse.cc:93-136 | split at the last colon behind the last right bracket |
| Parse.ParseAuthority | src/chromium/url/third_party/mozilla/url_parse.cc:143-176 | split at the last at sign |
| Parse.ParsePath | src/chromium/url/third_party/mozilla/url_parse.cc:179-244 | split at the first number sign and the first question mark before it |
| Parse.ParseAfterScheme | src/chromium/url/third_party/mozilla/url_parse.cc:285-313 | authority and path behind any number of slashes |
| Parse.ParseStandardURL | src/chromium/url/third_party/mozilla/url_parse.cc:317-336 | the ranges of all components |
| ParseSpec.BlanksDoNotCount | src/chromium/url/third_party/mozilla/url_parse.cc:317-324 | trailing blanks do not change the ranges |
| ParseSpec.TrailingBlanks | src/chromium/url/url_parse_internal.h:21-46 | any blanks and control characters put behind a string change no range |
| Splitting.LeadingBlanks | src/chromium/url/url_parse_internal.h:21-46 | any blanks and control characters put before a string shift its ranges and change nothing else |
| ParseSpec.BackslashesAreSlashes | src/chromium/url/url_parse_internal.h:15-57 | turning slashes into backslashes or back, anywhere, changes no range |
| Splitting.AuthoritySplitsAnyway | src/chromium/url/third_party/mozilla/url_parse.cc:70-176 | whatever the user name (but colons) and the password hold: the last at sign ends the user info, the first colon the user name, and the last colon behind the brackets begins the port |
| ParseSpec.AfterSchemeWithin | src/chromium/url/third_party/mozilla/url_parse.cc:285-313 | all ranges lie within the string |
| UrlText.ParsesBack | src/chromium/url/third_party/mozilla/url_parse.cc:317-336 | the parser finds the parts of any text put together from delimiter-free parts, but for blanks at its end |
| UrlText.ParsesBackIff | src/chromium/url/third_party/mozilla/url_parse.cc:317-336 | it finds exactly the ranges the parts were written at if and only if the reference does not end in a blank |
| UrlText.TextAndRangesDecide | src/chromium/url/url_canon_stdurl.cc:17-91 | a text and its ranges determine the parts |
| StandardUrl.DoCanonicalizeStandardURL | src/chromium/url/url_canon_stdurl.cc:17-91 | text, ranges and success of the assembled URL |
| StandardUrlSpec.HostKeepsShape | src/chromium/url/url_canon_host.cc:312-361 | a valid host is printed without delimiters, and with a colon only between brackets |
| StandardUrlSpec.ValidIsSplittable | src/chromium/url/url_canon_stdurl.cc:17-91 | no component of a valid URL is printed with a character that would end it |
| StandardUrlSpec.PrintedUrlParsesBackIff | src/chromium/url/url_canon_stdurl.cc:23-90 | the ranges reported for a valid URL are those the parser finds in the printed text if and only if the reference does not end in a space (for non-ASCII user info, query or reference: of the text that the model prints) |
| StandardUrlSpec.SecondRun | src/chromium/url/url_canon_stdurl.cc:17-91 | a valid URL stays valid, and exactly what a second run changes (for non-ASCII user info, query or reference: in the model) |
| StandardUrlSpec.CanonicalUrlIdempotentIff | src/chromium/url/url_canon_stdurl.cc:17-91 | parsing the printed URL and canonicalizing it again gives the same text, ranges and success if and only if the scheme was there, the scan of the path shows no torn escape and the reference does not end in a space (for non-ASCII user info, query or reference: in the model) |
| StandardUrlSpec.CanonicalUrlIdempotent | src/chromium/url/url_canon_stdurl.cc:17-91 | a valid URL with a scheme, no ".." behind a malformed percent sign of its path and no space at the end of its reference is parsed back to its own ranges and is stable (same restriction) |
| UrlMeaning.PrintedPortIs | src/chromium/url/url_canon_stdurl.cc:98-125 | a port is left out exactly if it is 80 for http or ws, 443 for https or wss, 21 for ftp or 70 for gopher; any other is printed in decimal |
| UrlMeaning.UrlMeans | src/chromium/url/url_canon_stdurl.cc:17-91 | what is printed for every URL, valid or not, component by component: what is there, what it decodes to, the port, and the path that is made up (for non-ASCII components: in the model) |
| UrlMeaning.ValidUrlIff | src/chromium/url/url_canon_stdurl.cc:17-91 | a URL is valid exactly if its scheme is one, its host is there and not BROKEN, its port is a number up to 65535 or missing, and its path holds no NUL |
| Relative.CopyToLastSlash | src/chromium/url/url_canon_relative.cc:179-197 | what is copied ends at the last slash, nothing if there is none |
| Relative.CopyOneComponent | src/chromium/url/url_canon_relative.cc:203-218 | the text of the component, at the range reported |
| Relative.DoResolveRelativePath | src/chromium/url/url_canon_relative.cc:269-367 | new path, query and reference behind the unchanged front of the base, with their ranges |
| Relative.DoResolveRelativeHost | src/chromium/url/url_canon_relative.cc:373-399 | the components of the reference with the scheme of the base, canonicalized from scratch |
| Relative.DoResolveRelativeURL | src/chromium/url/url_canon_relative.cc:423-510 | the dispatch: no path in the base, empty reference, two slashes, or the same host |
| Rfc3986.ResolutionIsRfc3986 | src/chromium/url/url_canon_relative.cc:423-510 | for every valid base and every reference of the grammar of RFC 3986 that meets the stated condition: text, ranges and success are those of the target that section 5.2.2 puts together (for non-ASCII user info, query or reference: in the model) |
| Rfc3986.ResolutionAgreesIff | src/chromium/url/url_canon_relative.cc:423-510 | for every reference without a relative path this holds if and only if the condition does (same restriction) |
| Rfc3986.AuthorityAgreesIff | src/chromium/url/url_canon_relative.cc:483-504 | with an authority in the reference: if and only if there is no third slash, or all that is behind it is a query or fragment (same restriction) |
| Rfc3986.RelativePathsAgreeIff | src/chromium/url/url_canon_relative.cc:269-367 | all references with a relative path are resolved to their targets if and only if the directory of the base has no malformed percent sign and no escape that should be plain, and the base its two slashes (same restriction) |
| Rfc3986.ThirdSlashIsNeeded | src/chromium/url/url_canon_relative.cc:483-504 | against every base "///g" becomes a valid URL with the host g, where the standard has an empty host |
| Rfc3986.NoBackslashIsNeeded | src/chromium/url/url_canon_relative.cc:483-509 | a relative path that begins with a backslash is taken for an absolute one |
| RelativeSpec.SameHostKeepsAuthority | src/chromium/url/url_canon_relative.cc:269-367 | for every valid base, with torn escapes or without a scheme too, and every reference on the same host: scheme and authority of the base are kept, and the result can be split again, at the ranges reported if and only if the reference part does not end in a blank |
| RelativeSpec.NoPathIsReturned | src/chromium/url/url_canon_relative.cc:437-447 | a base without a path is given back as it is, as a failure |
| RawBuffer.RawCanonOutput.Resize | src/chromium/url/url_canon.h:157-165 | a new array with the same contents |
| RawBuffer.RawCanonOutput.Grow | src/chromium/url/url_canon.h:123-133 | the doubling loop ends with enough room below 2^31, or fails and changes nothing |
| RawBuffer.RawCanonOutput.PushBack | src/chromium/url/url_canon.h:90-107 | one character more, unless growing fails |
| RawBuffer.RawCanonOutput.Append | src/chromium/url/url_canon.h:110-118 | a text more, unless growing fails |
| RawBuffer.DoubledFits | src/chromium/url/url_canon.h:123-133 | the capacity found is enough, fits an int and at least doubles the old one; it is missed only beyond 2^30 characters |
| RawBuffer.GrowthIs | src/chromium/url/url_canon.h:123-133 | the capacity found, in numbers: 16 or the old one, doubled until there is room, and given up exactly when the length arrived at is 2^30 or more and still too small |
| RawBuffer.FailedWrite | src/chromium/url/url_canon.h:90-118 | a write that fails changes nothing |
| RawBuffer.RefinesList | src/chromium/url/url_canon.h:84-133 | under any sequence of writes and rewinds the buffer holds what a list holds, as long as growing succeeds |
| RawBuffer.BufferIsList | src/chromium/url/url_canon.h:84-133 | growing does succeed below 2^29 characters |
| RawBuffer.CopyingIsLinear | src/chromium/url/url_canon.h:123-165 | the characters moved to new arrays are linear in those written |
| SchemeHostPorts.CheckCanonicalHost | src/chromium/url/scheme_host_port.cc:25-47 | a host is canonical if it canonicalizes to itself |
| SchemeHostPorts.SchemeHostPort.constructor | src/chromium/url/scheme_host_port.cc:105-115 | input that is not valid makes the invalid object |
| SchemeHostPorts.SchemeHostPort.Serialize | src/chromium/url/scheme_host_port.cc:144-168 | scheme, host and the port that is not the default |
| SchemeHostPorts.SchemeHostPort.Equals | src/chromium/url/scheme_host_port.cc:170-173 | equality of the fields, which for lower-case schemes is equality of the serializations |
| SchemeHostPortSpec.DefaultPortIsKnown | src/chromium/url/url_canon_stdurl.cc:98-125 | the default port of a standard scheme is found exactly if the scheme is written in lower case |
| SchemeHostPortSpec.SerializationIsFaithful | src/chromium/url/scheme_host_port.cc:144-173 | two valid tuples with the same serialization are equal, for a scheme in lower case |
| SchemeHostPortSpec.FaithfulIff | src/chromium/url/scheme_host_port.cc:144-173 | a valid tuple is told apart from all others by its serialization if and only if its scheme is in lower case or has no port |
| SchemeHostPortSpec.SerializationIsUrl | src/chromium/url/scheme_host_port.cc:144-168 | a tuple is serialized as the canonical URL of its parts without the final slash |
| SchemeHostPortSpec.PlainNameIsOrigin | src/chromium/url/scheme_host_port.cc:49-98 | an ordinary host name with a standard scheme and a port is a valid tuple |
| SchemeHostPortSpec.OriginIsBase | src/chromium/url/url_canon_relative.cc:437-447 | the URL of such a tuple is a base in the sense of the resolution theorems |
| UrlMeaning.SchemeTypeIs | src/chromium/url/url_util.cc:20-34 | the standard schemes, with ports, without, and without authority, by their names in any case |
| UrlMeaning.OriginIff | src/chromium/url/scheme_host_port.cc:49-115 | which tuples are valid |
| UrlMeaning.SerializedIs | src/chromium/url/scheme_host_port.cc:144-168 | an origin in lower case is serialized as scheme, "://", host and the port that is not the default, with the default ports written out |
| TaskLoopSpec.StepKeeps | src/blinkit/posix/task_loop.cpp:56-102 | every atomic step of every thread keeps mutual exclusion, the order and number of tasks, the exit code, the null check and the wake-up condition |
| TaskLoopSpec.TasksAreConserved | src/blinkit/posix/task_loop.cpp:68-99 | at every moment of every interleaving: tasks queued = tasks run ++ at most one in flight ++ tasks waiting, in order and without repetition |
| TaskLoopSpec.NoLostWakeup | src/blinkit/posix/task_loop.cpp:56-87 | a runner asleep and not signalled has nothing to do or is about to be signalled |
| TaskLoopSpec.OneStartAfterExit | src/blinkit/posix/task_loop.cpp:56-98 | counted step by step over every run, at most one task starts with an exit code set |
| TaskLoopSpec.RunReturnsAnExitCode | src/blinkit/posix/task_loop.cpp:93-101 | Run returns only a code that was set, and both assertions hold |
| TaskLoopSpec.RunReturnsLastCode | src/blinkit/posix/task_loop.cpp:101-101 | where Run reads its result it is the code set last |
| TaskLoopSpec.ResultStays | src/blinkit/posix/task_loop.cpp:101-101 | and it stays, whatever is set afterwards |
| TaskLoopSpec.QuietMeansDone | src/blinkit/posix/task_loop.cpp:56-102 | no deadlock: when nothing can go on, all calls have returned and the runner has returned or sleeps with every task run |
| TaskLoopSpec.ExitEndsRun | src/blinkit/posix/task_loop.cpp:56-102 | once an exit code is set, Run has returned as soon as the runner has made nine steps, whatever the others do |
| TaskLoopSpec.WaitingTaskIsRun | src/blinkit/posix/task_loop.cpp:77-99 | a task with k others before it in the queue has been run when the runner has made 7(k + 2) steps and no exit code was set, in every interleaving |
| TaskLoopSpec.TakenTaskCanBeLost | src/blinkit/posix/task_loop.cpp:87-95 | an interleaving in which a task is taken from the queue and never run, for every exit code |
| TaskLoopSpec.ReadDecides | src/blinkit/posix/task_loop.cpp:93-98 | the task taken is run if and only if no exit code was set at the unlocked read |
| TaskLoopSpec.UninterruptedCall | src/blinkit/posix/task_loop.cpp:56-75 | the four steps of a call, uninterrupted, queue the task or set the code and wake the runner |
| TaskLoops.TaskLoop.PostTask | src/blinkit/posix/task_loop.cpp:66-75 | the poster is these four steps |
| TaskLoops.TaskLoop.Exit | src/blinkit/posix/task_loop.cpp:56-62 | Exit is these four steps |
| TaskLoops.TaskLoop.TakeTask | src/blinkit/posix/task_loop.cpp:81-91 | the locked part of Run takes the oldest task |
| TaskLoops.TaskLoop.Destroy | src/blinkit/posix/task_loop.cpp:40-54 | the destructor discards what is queued, in order |

## Left out

- Host.DoHost: only for hosts that are not left to the IDN conversion, whose backend in `src/url/url_canon.cpp` is a stub.
- Etc.DoScheme: only for ASCII schemes, because the UTF-8 decoder that the escaping of other characters calls is not part of this model.
- Etc.AppendStringOfType: only for ASCII texts, for the same reason.
- Etc.DoUserInfo: only for ASCII texts, for the same reason.
- Etc.AppendInvalidNarrowString: only for ASCII texts, for the same reason.
- Etc.DoPort: only for ASCII texts, for the same reason.
- Etc.DoCanonicalizeQuery: only for ASCII queries, so no converter to another character set is called.
- Etc.DoCanonicalizeRef: only for ASCII references, for the same reason as the other texts.
- StandardUrl.DoCanonicalizeStandardURL: with these limits on its components; paths may hold any bytes. The components are taken as texts, so that sources that share a buffer are not told apart from others.
- StandardUrlSpec.PrintedUrlParsesBackIff: for valid URLs; an invalid port or host is copied for the user to see and may hold delimiters.
- StandardUrlSpec.CanonicalUrlIdempotentIff: for valid URLs, as the scheme of an invalid one is escaped in upper case and lower-cased the next time.
- PathDots.PathIsRemoveDotSegments: a condition that can be seen at once, and only sufficient; the exact one is that of `PathDots.PathIsRemoveDotSegmentsIff`.
- CanonOutputs.CanonOutput.SetLength: only for backing up, as the canonicalizers use it; declaring a longer length after writing past the end of the raw buffer is not modelled.
- Relative.DoResolveRelativePath: only for ASCII queries and references and for an output that is empty before.
- Relative.DoResolveRelativeHost: only for references with ASCII components and a host that is not left to the IDN conversion.
- Relative.DoResolveRelativeURL: not for references on a file URL that lead to an absolute file, and for an output that is empty before, as the ranges of the base are reported unchanged.
- Rfc3986.ResolutionIsRfc3986: for a base that is a valid canonical URL. The grammar leaves out which characters are allowed where, so it has more references than the standard; references with a scheme of their own are resolved elsewhere.
- Rfc3986.RelativePathsAgreeIff: exact for each base over all relative paths; for a single path on a base that does not conform, whether the two paths happen to be equal is left to the scanner.
- RawBuffer.RawCanonOutput.Append: for lengths whose sum fits a 32-bit int, as the program computes that sum unchecked.
- SchemeHostPorts.CheckCanonicalHost: only for hosts that are not left to the IDN conversion.
- SchemeHostPorts.SchemeHostPort.constructor: with the built-in table of standard schemes; schemes registered while running are not modelled.
- Lengths and positions in strings are unbounded integers except in `RawBuffer`; a growth that fails is modelled there and not in the canonicalizers.
- The comparison of a char, which may be signed, with 0x80 in `CheckForNestedEscapes`: a character beyond ASCII is no hexadecimal digit, so the outcome is the same.
- The decision whether a reference is relative at all (`DoIsRelativeURL`) and the removal of tabs and line breaks.
- UTF-16 strings, drive letters and UNC paths of Windows.
- File, filesystem, mailto and path URLs, and the replacement of single components.
- The order of `SchemeHostPort` objects, and their construction from a parsed URL.
- Tasks that themselves post or exit are not told apart from other calls that come in while a task runs. Failures of the mutex and condition variable functions are not modelled.
- HTTP, loading, scripting and the user interface.
