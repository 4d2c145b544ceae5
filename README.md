# Webamoki Utils — a verified model of its core

This project models four static classes of the Webamoki Utils library in Dafny
and proves properties of the model.

- **`Cryptography`**:
  - random tokens drawn by rejection sampling;
  - the `'s'`-prefixed lowercase-hexadecimal text encoding and its decoder;
  - the bijective base-K numeral encoder `IntToBaseX`;
  - the framing around the foreign primitives: the 32-character AES key string, the IV ‖ ciphertext buffer and its double hex encoding, and the BCrypt hash wrapper.
- **`ValueValidations`**:
  - the flag-driven check of a loosely typed value, `Check` and `CheckGlobalCSS`;
  - the search for markup and URL fragments, `HasBannedCharacters`.

  Its regular expressions are written out as predicates over strings.
- **`Logging`**: the label buffer (`LogBuffer`), the enable flag and what a write puts on the console. The static state is a `Logger` object, and its methods update it in place.
- **`StringExtensions.TrimEnd`**: removes an exact suffix, or throws.

An exception thrown by the C# code is the `Throw` case of `Outcome<T>` (`outcomes.dfy`).

`Encoding.UTF8` is modelled for real (`utf8.dfy`):
- an encoder over Unicode scalar values;
- a decoder that replaces each maximal ill-formed subpart with U+FFFD;
- the RFC 3629 round trip between them.

The random number generator is an input byte sequence, `entropy`. Running out of it yields `None`. AES-CBC and BCrypt are function-typed parameters, and so are the IV and the salt they would draw. The clock reading `DateTime.Now` is a parameter `now`.

Several behaviours of the code are modelled as written, each with a lemma that exhibits it:

- **Empty input to `Encode`:** `Encode("")` is `"s"`. `TryDecode` rejects it because the hexadecimal pattern needs at least one digit (`EmptyEncodingIsRejected`).
- **Final newline:** .NET's `\Z` and `$` also match before one final `'\n'`. So `TryDecode("sabc\n")` passes the pattern and then throws in `Convert.ToByte` (`TryDecodeThrowsOnTrailingNewline`). A final newline is likewise accepted by the numeric patterns (`IntPatternAcceptsFinalNewline`).
- **Only an outer failure returns false:** `TrySecureDecode` returns false only when the outer decode fails. A buffer shorter than one IV makes `new byte[-n]` throw `OverflowException` (`TrySecureDecodeShortBufferThrows`). Bad padding throws `CryptographicException`.
- **Short key prefix:** the key is `(token + domain).PadRight(32)[..32]` and the token has 14 characters. So only the first 18 characters of a domain matter, and two domains that share them share a key (`KeyStringDependsOnFirst18`, `TestDomainKeyCollision`). The key is a valid AES key exactly when those characters are ASCII (`KeyValidIffAsciiPrefix`).
- **Literal `https:/i`:** the banned-token pattern contains the literal text `https:/i` (the `/i` is not a flag). So `"https://"` passes while `"http://"` is banned, and the match is case-sensitive (`HttpsUrlPasses`, `HttpUrlIsBanned`, `UppercaseTagPasses`).
- **`Check` never returns `false`:** it either returns `true` or throws (`CheckNeverReturnsFalse`).

## Model

| member | source | states |
|---|---|---|
| Utf8.EncodeChar | src/Utils/Cryptography.cs:71 | UTF-8 encodes one scalar value in 1 to 4 bytes; one byte exactly for ASCII, that byte being the code point |
| Utf8.DecodeFirstEncodeChar | src/Utils/Cryptography.cs:148 | decoding the encoding of a character, whatever follows it, returns that character and the encoding's length |
| Utf8.GetStringGetBytes | src/Utils/Cryptography.cs:148 | `GetString(GetBytes(s)) == s` for every string: the UTF-8 round trip the text codec relies on |
| Utf8.GetBytesLengthAscii | src/Utils/Cryptography.cs:100 | the byte count equals the character count iff every character is ASCII |
| Utf8.GetBytesAppend | src/Utils/Cryptography.cs:71 | encoding distributes over concatenation |
| Cryptography.SamplingConstants | src/Utils/Cryptography.cs:33-37 | for both pool sizes the constants are what the logarithm formulas give: 2^(bits-1) <= max < 2^bits, bytes = (bits-1)/8+1 = 1, filter = 2^bits-1 = 63 |
| Cryptography.RejectionSample | src/Utils/Cryptography.cs:31-50 | every value the sampler returns lies in [0, max) and at least one byte of entropy is consumed per draw |
| Cryptography.CryptoRandSecure | src/Utils/Cryptography.cs:31-50 | the do-while loop that ORs bytes into a draw, masks it and redraws while it is >= max returns what the rejection sampler does, hence a value in [0, max) |
| Cryptography.MaskIsUniform | src/Utils/Cryptography.cs:44-46 | masking a byte to 6 bits maps exactly four bytes onto each value 0..63, so every accepted value is equally likely |
| Cryptography.RejectionSampleConsumesPrefix | src/Utils/Cryptography.cs:40-47 | what is left of the entropy is a suffix of what was given: the sampler reads the stream front to back |
| Cryptography.DrawTokenInPool | src/Utils/Cryptography.cs:26-27 | every character of a drawn token is from the pool |
| Cryptography.DrawTokenFromAcceptedBytes | src/Utils/Cryptography.cs:26-27 | when the first `length` bytes are all accepted, the token's i-th character is the pool character the i-th byte selects, and exactly those bytes are consumed |
| Cryptography.PoolsAreAlphanumeric | src/Utils/Cryptography.cs:11-12 | the uppercase pool is exactly the digits and capitals; the full pool is exactly the digits and both cases of letters |
| Cryptography.CreateToken | src/Utils/Cryptography.cs:20-29 | a negative length throws; otherwise the token has exactly `length` characters, each from the 36-character pool when uppercase is asked for, from the 62-character pool otherwise |
| Cryptography.FillToken | src/Utils/Cryptography.cs:26-27 | the loop filling the `char[]` leaves in the array the token `DrawToken` draws from the same entropy |
| Cryptography.LowerHexByte | src/Utils/Cryptography.cs:74 | `ToString("x2")`: two hexadecimal digits whose value is the byte |
| Cryptography.LowerHexDigits | src/Utils/Cryptography.cs:74 | every digit produced is a lowercase hexadecimal digit |
| Cryptography.HexPairsLowerHex | src/Utils/Cryptography.cs:129-138 | parsing the hexadecimal text of any byte sequence gives the bytes back |
| Cryptography.HexPairsAllHex | src/Utils/Cryptography.cs:129-138 | an even-length all-hex text parses to half as many bytes, byte i having the value of digits 2i and 2i+1 |
| Cryptography.HexPairsNewline | src/Utils/Cryptography.cs:134-135 | an odd-length hexadecimal text followed by a newline fails with `FormatException` at its last pair |
| Cryptography.ConvertHexadecimalStringToByteArray | src/Utils/Cryptography.cs:129-138 | the loop writing the byte array computes the pairwise parse, including the exception of the first bad pair |
| Cryptography.AppendLowerHex | src/Utils/Cryptography.cs:74 | the `StringBuilder` loop appends exactly the lowercase hexadecimal text of the bytes |
| Cryptography.Encode | src/Utils/Cryptography.cs:69-76 | `Encode(string)` returns `'s'` followed by the hexadecimal text of the UTF-8 bytes |
| Cryptography.EncodeBytes | src/Utils/Cryptography.cs:78-83 | `Encode(byte[])` returns the string encoding of the bytes' lowercase hexadecimal text |
| Cryptography.EncodedShape | src/Utils/Cryptography.cs:69-76 | an encoding has length 1 + 2 * byte count, starts with `'s'` and is lowercase hexadecimal after that |
| Cryptography.EncodeTest | src/Utils.Tests/CryptographyTest.cs:34-46 | `Encode("test") == "s74657374"` |
| Cryptography.TryDecode | src/Utils/Cryptography.cs:140-150 | when decoding returns false, the out value is the input unchanged |
| Cryptography.TryDecodeCases | src/Utils/Cryptography.cs:14-15 | decoding succeeds iff the text is `'s'` then a non-empty even-length run of hex digits; it throws iff that run ends in one newline after hex digits; it returns false otherwise |
| Cryptography.TryDecodeEncoded | src/Utils/Cryptography.cs:140-150 | for every non-empty string, decoding its encoding succeeds and gives the string back |
| Cryptography.EmptyEncodingIsRejected | src/Utils/Cryptography.cs:14 | the encoding of the empty string is `"s"`, and decoding it returns false |
| Cryptography.TryDecodeRejectsTestInputs | src/Utils.Tests/CryptographyTest.cs:62-68 | `"fake"`, `"sxx"` and `"sade"` decode to false with the input unchanged |
| Cryptography.TryDecodeThrowsOnTrailingNewline | src/Utils/Cryptography.cs:14-15 | `"sabc\n"` passes the pattern and makes decoding throw |
| Cryptography.TryDecodeReadsEitherCase | src/Utils/Cryptography.cs:134-135 | a well-formed encoding with capital digits decodes to the same bytes as its lowercase form |
| Cryptography.LowerHexOfPairs | src/Utils/Cryptography.cs:129-138 | re-encoding the parsed bytes of a hexadecimal text gives the text with its letters lowercased |
| Cryptography.Hash | src/Utils/Cryptography.cs:57-61 | the hash is an `'s'`-prefixed encoding of BCrypt's output, twice as long as its UTF-8 bytes plus one, and decoding it gives BCrypt's output back whenever that is non-empty |
| Cryptography.Verify | src/Utils/Cryptography.cs:124-127 | false when the hash does not decode, the same exception when decoding throws, otherwise BCrypt's verdict on the decoded text |
| Cryptography.VerifyHash | src/Utils.Tests/CryptographyTest.cs:21-32 | verifying a value against its own hash succeeds whenever BCrypt accepts its own output |
| Cryptography.KeyStringShape | src/Utils/Cryptography.cs:94-100 | the key string is always 32 characters: the token, then the domain's characters, then spaces |
| Cryptography.KeyStringDependsOnFirst18 | src/Utils/Cryptography.cs:94-100 | two domains give the same key string iff their first 18 characters (space-padded) agree |
| Cryptography.KeyValidIffAsciiPrefix | src/Utils/Cryptography.cs:100 | the key bytes form a valid AES key iff the domain's first 18 characters are ASCII |
| Cryptography.TestDomainKeyCollision | src/Utils/Cryptography.cs:94-100 | two distinct domains sharing 18 leading characters get the same key |
| Cryptography.SplitEnvelope | src/Utils/Cryptography.cs:171-177 | the first 16 bytes are taken as the IV and, joined with the rest, rebuild the buffer |
| Cryptography.SecureEncode | src/Utils/Cryptography.cs:91-116 | a bad key throws; otherwise the copy loops fill the buffer with IV then ciphertext, and the result is its double encoding |
| Cryptography.TrySecureDecode | src/Utils/Cryptography.cs:152-182 | the result is false exactly when the outer decode returns false, with the input unchanged; an outer decode exception and an inner hexadecimal exception propagate unchanged; an invalid key throws `CryptographicException`; fewer than 16 payload bytes throw `OverflowException`; otherwise a failed decryption throws `CryptographicException` and a successful one returns true with the UTF-8 text of the plaintext |
| Cryptography.SecureRoundTrip | src/Utils.Tests/CryptographyTest.cs:71-85 | decoding under the same domain recovers the value whenever the cipher inverts itself |
| Cryptography.SameKeySameDecode | src/Utils/Cryptography.cs:166 | two domains with the same key string decode every text alike |
| Cryptography.TrySecureDecodeFakeString | src/Utils.Tests/CryptographyTest.cs:87-95 | `"fake string"` decodes to false under any cipher |
| Cryptography.TrySecureDecodeShortBufferThrows | src/Utils/Cryptography.cs:171-173 | a well-formed encoding of a buffer shorter than one IV throws `OverflowException` |
| Cryptography.BijectiveDigits | src/Utils/Cryptography.cs:191-196 | the digits of n are empty iff n is 0, and each is below the base |
| Cryptography.BijectiveValueOfDigits | src/Utils/Cryptography.cs:191-196 | reading the digits back in bijective base K gives the number |
| Cryptography.BijectiveDigitsOfValue | src/Utils/Cryptography.cs:191-196 | every digit sequence is the digit sequence of its own value: the encoding is onto |
| Cryptography.BaseXIsBijective | src/Utils/Cryptography.cs:191-196 | a digit sequence is the encoding of a number iff its value is that number |
| Cryptography.SpellIsInjective | src/Utils/Cryptography.cs:194 | over an alphabet without repeats, spelling two digit sequences gives the same text iff they are equal |
| Cryptography.IntToBaseX | src/Utils/Cryptography.cs:184-199 | a non-positive number throws `ArgumentException`, an empty alphabet `DivideByZeroException`; otherwise the result spells the bijective digits, is non-empty and uses only alphabet characters |
| Cryptography.SpellBaseX | src/Utils/Cryptography.cs:191-196 | the while loop prepending one character per step spells the bijective digits of the number |
| Cryptography.NextDigit | src/Utils/Cryptography.cs:193-195 | one step takes remainder < K and quotient with quotient * K + remainder == n - 1 |
| Cryptography.IntToBaseXTest | src/Utils.Tests/CryptographyTest.cs:98-111 | 39 in the 38-character alphabet is `"aa"` |
| ValueValidations.TrimStartChar | src/Utils/ValueValidations.cs:80 | `TrimStart('-')`: removes exactly the leading run of the character |
| ValueValidations.TrimEndChar | src/Utils/ValueValidations.cs:85-91 | `TrimEnd(c)`: removes exactly the trailing run of the character |
| ValueValidations.DecimalIffSplit | src/Utils/ValueValidations.cs:104-105 | the decimal pattern holds iff the text is a positive integer, a point and digits ending in a non-zero digit |
| ValueValidations.IntBodyMeaning | src/Utils/ValueValidations.cs:110-111 | the integer pattern accepts exactly the non-empty digit strings without a leading zero, and `"0"` |
| ValueValidations.DoubleBodyEndsWell | src/Utils/ValueValidations.cs:104-105 | an accepted number ends in a digit, in a non-zero one if it has a point, and does not start with `'0'` |
| ValueValidations.Check | src/Utils/ValueValidations.cs:32-102 | the step-by-step normalisation and dispatch compute the check's decision |
| ValueValidations.CheckGlobalCSS | src/Utils/ValueValidations.cs:11-30 | the check with the five CSS-wide keywords added to the listed values |
| ValueValidations.CheckNeverReturnsFalse | src/Utils/ValueValidations.cs:32-102 | the check returns true or throws, never false |
| ValueValidations.CheckNull | src/Utils/ValueValidations.cs:46-50 | null passes iff `allowNull`, and otherwise throws "Null value not allowed" |
| ValueValidations.CheckListedValue | src/Utils/ValueValidations.cs:52-55 | a listed non-null value passes before any type check |
| ValueValidations.CheckInt | src/Utils/ValueValidations.cs:57-63 | an unlisted int passes iff int or double is allowed and it is non-negative or negatives are allowed, with the message for each failure |
| ValueValidations.CheckDouble | src/Utils/ValueValidations.cs:65-71 | an unlisted double passes iff doubles are allowed and it is non-negative or negatives are allowed; NaN counts as negative |
| ValueValidations.CheckString | src/Utils/ValueValidations.cs:74-99 | an unlisted string passes iff some string flag is set and its normalised form matches a selected pattern; each failure has its message |
| ValueValidations.CheckInvalidType | src/Utils/ValueValidations.cs:101 | any other unlisted value throws "Invalid type" |
| ValueValidations.GlobalKeywordsPassOnlyCheckGlobalCSS | src/Utils.Tests/ValueValidationsTest.cs:16-29 | each CSS-wide keyword passes `CheckGlobalCSS` and fails a flagless `Check` |
| ValueValidations.NegativeStringNeedsAllowNegative | src/Utils/ValueValidations.cs:78-111 | for every flag combination without `allowNegative` (including the `%` and `rem` suffixes), a string starting with `'-'` is rejected after normalisation |
| ValueValidations.IntPatternCases | src/Utils.Tests/ValueValidationsTest.cs:61-72 | the integer pattern accepts `"0"`, `"1"`, `"10"`, `"201"` and rejects `"13.0"`, `"13."`, `"-13"` |
| ValueValidations.DoublePatternAccepts | src/Utils.Tests/ValueValidationsTest.cs:74-87 | the number pattern accepts `"1"`, `"10"`, `"201"`, `"13.12"` |
| ValueValidations.DoubleRejectsZero | src/Utils.Tests/ValueValidationsTest.cs:74-87 | the number pattern rejects `"0"` |
| ValueValidations.DoubleRejectsTrailingZero | src/Utils/ValueValidations.cs:104-105 | the number pattern rejects `"13.0"` and `"13.10"`: a fraction must end in a non-zero digit |
| ValueValidations.DoubleRejectsEmptyFraction | src/Utils/ValueValidations.cs:104-105 | the number pattern rejects `"13."` |
| ValueValidations.SignedTextMatchesNothing | src/Utils/ValueValidations.cs:104-111 | every text starting with `'-'` is rejected by the integer, number and pixel patterns, also before a final newline |
| ValueValidations.BodiesRejectSign | src/Utils/ValueValidations.cs:104-111 | the integer, number and pixel pattern bodies reject the empty text and every text starting with `'-'` |
| ValueValidations.UnsignedPartsOnly | src/Utils/ValueValidations.cs:104-105 | the digit, decimal and fraction alternatives reject the empty text and every text starting with `'-'` |
| ValueValidations.PixelPatternAccepts | src/Utils.Tests/ValueValidationsTest.cs:117-132 | the pixel pattern accepts `".1px"`, `"20.1px"`, `"13.12px"` |
| ValueValidations.PixelOf | src/Utils/ValueValidations.cs:107-108 | a text plus `"px"` matches iff the text is a decimal or a bare fraction |
| ValueValidations.PixelRejectsIntegers | src/Utils.Tests/ValueValidationsTest.cs:117-132 | the pixel pattern rejects `"0px"`, `"0"`, `"1px"`, `"10px"` |
| ValueValidations.PixelRejectsLeadingZero | src/Utils.Tests/ValueValidationsTest.cs:117-132 | the pixel pattern rejects `"0.1px"` |
| ValueValidations.PixelRejectsTrailingZero | src/Utils/ValueValidations.cs:107-108 | the pixel pattern rejects `"13.0px"` and `"13.px"` |
| ValueValidations.IntPatternAcceptsFinalNewline | src/Utils/ValueValidations.cs:110-111 | `"13\n"` matches the integer pattern because `$` matches before a final newline |
| ValueValidations.TrimRemSuffix | src/Utils/ValueValidations.cs:89-93 | stripping trailing `m`, `e`, `r` in turn removes a `"rem"` suffix |
| ValueValidations.TrimPercentSuffix | src/Utils/ValueValidations.cs:83-87 | stripping trailing `%` removes one `"%"` suffix |
| ValueValidations.TrimSign | src/Utils/ValueValidations.cs:80 | stripping leading `-` removes one sign |
| ValueValidations.IntStringAccepts | src/Utils.Tests/ValueValidationsTest.cs:61-72 | `stringInt` accepts `"0"`, and `"-13"` with `allowNegative` |
| ValueValidations.IntStringRejects | src/Utils.Tests/ValueValidationsTest.cs:61-72 | `stringInt` rejects `"13.0"`, and `"-13"` without `allowNegative` |
| ValueValidations.DoubleStringCases | src/Utils.Tests/ValueValidationsTest.cs:74-87 | `stringDouble` rejects `"0"` and accepts `"13.12"` and, with `allowNegative`, `"-13.12"` |
| ValueValidations.PercentStringCases | src/Utils.Tests/ValueValidationsTest.cs:89-101 | `stringPercentage` rejects `"0%"` and accepts `"13.12%"` |
| ValueValidations.RemStringRejects | src/Utils.Tests/ValueValidationsTest.cs:103-115 | `stringRem` rejects `"13.rem"` |
| ValueValidations.RemStringAccepts | src/Utils.Tests/ValueValidationsTest.cs:103-115 | `stringRem` accepts `"13.12rem"` |
| ValueValidations.PixelStringCases | src/Utils.Tests/ValueValidationsTest.cs:117-132 | `stringPixel` rejects `"10px"` and accepts `"20.1px"` |
| ValueValidations.NumberTestCases | src/Utils.Tests/ValueValidationsTest.cs:31-59 | the int and double cases of the tests: each flag combination passes or throws with its message |
| ValueValidations.ScanBanned | src/Utils/ValueValidations.cs:113-114 | the scan from position k is true iff a banned fragment starts at some position at or after k |
| ValueValidations.HasBannedCharacters | src/Utils/ValueValidations.cs:9 | true iff a banned fragment starts somewhere in the value |
| ValueValidations.ContainingATokenIsBanned | src/Utils/ValueValidations.cs:113-114 | any text containing a listed token is banned |
| ValueValidations.SlashBracketIsBanned | src/Utils/ValueValidations.cs:113-114 | any text containing `'/'` followed by one of the listed brackets is banned |
| ValueValidations.NotBannedFrom | src/Utils/ValueValidations.cs:113-114 | a text with no slash-bracket pair and no token at any position is not banned: the converse of the two lemmas above |
| ValueValidations.HttpsUrlPasses | src/Utils/ValueValidations.cs:113-114 | `"https://"` is not banned, since the token is the literal `https:/i` |
| ValueValidations.HttpUrlIsBanned | src/Utils/ValueValidations.cs:113-114 | `"http://"` is banned |
| ValueValidations.UppercaseTagPasses | src/Utils/ValueValidations.cs:113-114 | `"<SCRIPT>"` is not banned: the match is case-sensitive |
| Logging.LevelValuesAreDistinct | src/Utils/Logging.cs:3-9 | the four levels are 0 to 3 in order and distinct |
| Logging.DefaultColorsDistinguishLevels | src/Utils/Logging.cs:189-199 | each level has its own default colour, never white |
| Logging.EntryColor | src/Utils/Logging.cs:176 | an entry's own colour wins; otherwise its level's default |
| Logging.LevelTextIsAligned | src/Utils/Logging.cs:182 | the level text is five characters, distinct per level: `DEBUG`, `INFO `, `WARN `, `ERROR` |
| Logging.Render | src/Utils/Logging.cs:174-187 | a console line carries the entry's colour, timestamp and message and a five-character level |
| Logging.HeldLogs | src/Utils/Logging.cs:129-137 | a label's entries, or none for a missing label |
| Logging.Buffered | src/Utils/Logging.cs:51-61 | a non-empty label gets one entry appended, its list created if absent; a null or empty label leaves the buffer as it was; other labels keep their lists |
| Logging.Held | src/Utils/Logging.cs:113-122 | the label is present afterwards with its entries kept, and an existing buffer is untouched |
| Logging.Cleared | src/Utils/Logging.cs:143-149 | the label is gone and every other label keeps its list |
| Logging.WritesAccumulateInOrder | src/Utils.Tests/LoggingTest.cs:267-284 | successive writes under a label are held in writing order after what was there; other labels are unchanged |
| Logging.LabelsAreSeparate | src/Utils.Tests/LoggingTest.cs:286-299 | writing under one label does not change another label's entries |
| Logging.HoldIsIdempotent | src/Utils.Tests/LoggingTest.cs:208-219 | holding twice is holding once, and holding never changes any label's entries |
| Logging.WriteAfterHold | src/Utils.Tests/LoggingTest.cs:197-206 | a write after a hold leaves the same buffer as the write alone |
| Logging.ClearOnlyTouchesItsLabel | src/Utils.Tests/LoggingTest.cs:310-333 | clearing a label empties it, leaves every other label, and is a no-op for a missing label |
| Logging.Logger.constructor | src/Utils/Logging.cs:15-17 | the start state: disabled, no buffers, nothing written |
| Logging.Logger.Enable | src/Utils/Logging.cs:23-26 | sets the flag and changes nothing else |
| Logging.Logger.Disable | src/Utils/Logging.cs:31-34 | clears the flag and changes nothing else |
| Logging.Logger.WriteLogEntry | src/Utils/Logging.cs:174-187 | one rendered line is added to the console |
| Logging.Logger.WriteLog | src/Utils/Logging.cs:43-67 | the buffer is updated whether or not logging is enabled; the console gets the line only when it is |
| Logging.Logger.WriteDebug | src/Utils/Logging.cs:74-77 | a write at level Debug in DarkMagenta |
| Logging.Logger.WriteInfo | src/Utils/Logging.cs:84-87 | a write at level Info in Blue |
| Logging.Logger.WriteWarn | src/Utils/Logging.cs:94-97 | a write at level Warn in Yellow |
| Logging.Logger.WriteError | src/Utils/Logging.cs:104-107 | a write at level Error in Red |
| Logging.Logger.Hold | src/Utils/Logging.cs:113-122 | the buffer after the hold, the flag and console unchanged |
| Logging.Logger.GetHeldLogs | src/Utils/Logging.cs:129-137 | a copy of the label's list, or empty for a missing label |
| Logging.Logger.ClearHeldLogs | src/Utils/Logging.cs:143-149 | the buffer without the label, all else unchanged |
| Logging.Logger.GetBufferLabels | src/Utils/Logging.cs:155-161 | exactly the labels in the buffer, each once |
| Logging.Logger.ClearBuffer | src/Utils/Logging.cs:166-172 | no labels remain |
| Logging.AccumulatingSession | src/Utils.Tests/LoggingTest.cs:267-284 | three writes under a label are held in order with their levels and colours |
| Logging.ClearingSession | src/Utils.Tests/LoggingTest.cs:310-326 | an empty label is not buffered, both real labels are, and clearing one leaves the other's single entry |
| StringExtensions.PadRight | src/Utils/Cryptography.cs:100 | `PadRight(width)`: the text, then spaces up to the width; a text already that wide is unchanged |
| StringExtensions.TrimEnd | src/Utils/StringExtensions.cs:5-9 | on success the result followed by the suffix is the source and is shorter by the suffix's length; failure is the "Invalid Operation" exception |
| StringExtensions.TrimEndUndoesAppend | src/Utils/StringExtensions.cs:7-8 | trimming a suffix from a text ending in it returns the text before it |
| StringExtensions.TrimEndFailsWithoutSuffix | src/Utils/StringExtensions.cs:7 | the call throws iff no text followed by the suffix is the source |
| StringExtensions.TrimEndEmptySuffix | src/Utils/StringExtensions.cs:7-8 | an empty suffix returns the source unchanged |
| StringExtensions.TrimEndTestCases | src/Utils.Tests/StringExtensionsTest.cs:11-15 | `"test".TrimEnd("est") == "t"` and `"test".TrimEnd("a")` throws |

## Left out

- Cryptography.IntToBaseX: .NET string length and indexing count UTF-16 code units, the model counts Unicode scalar values; they differ for alphabets outside the Basic Multilingual Plane (`IntToBaseX(1, "😀😁")` works in base 4 in the source and returns the lone high surrogate U+D83D, in base 2 in the model and returns `"😀"`).
- Cryptography.KeyString: `PadRight(32)[..32]` counts UTF-16 code units in the source and scalar values in the model, so the two differ for a token or domain holding characters outside the Basic Multilingual Plane.
- Cryptography.KeyStringDependsOnFirst18: the "first 18 characters" are 18 UTF-16 code units in the source; the statement is about scalar values, which agree for text inside the Basic Multilingual Plane. `SecureEncode` and `TrySecureDecode` are unaffected in their key, since a prefix with a non-ASCII character gives an invalid key either way.
- Cryptography.TrySecureDecode and Cryptography.ConvertHexadecimalStringToByteArray: the inner text is cut into pairs by scalar value, while the source's `Length` and `Substring(i, 2)` count UTF-16 code units. For inner text outside the Basic Multilingual Plane the pairs and the exception kind can differ: for `"ab😀"` the source sees 4 code units and `Convert.ToByte` of the surrogate pair throws `FormatException`, while the model sees 3 characters and throws `ArgumentOutOfRangeException`.
- Lone UTF-16 surrogates: a Dafny `char` is a Unicode scalar value, so strings holding an unpaired surrogate (which .NET encodes as U+FFFD) cannot be written.
- `\d` is modelled as the ASCII digits; .NET's `\d` also matches other Unicode decimal digits.
- The culture-sensitive `EndsWith` in `TrimEnd` is modelled as an ordinal comparison.
- `Math.Log` in `CryptoRandSecure` is floating point; the model uses the integer constants it yields for the two pool sizes (1 byte, 6 bits, mask 63) and proves they satisfy the defining inequalities.
- CryptoRandSecure: the rejection loop terminates only with probability 1; the model reads a finite entropy prefix and returns `None` when it runs out, so it proves partial correctness only.
- `RandomNumberGenerator`, the AES IV and the BCrypt salt are parameters; AES-256-CBC with PKCS7 and BCrypt are function-typed parameters, not modelled.
- The exact `CryptographicException` raised for each AES failure is merged into one exception kind; `Convert.ToByte` failures on text inside the Basic Multilingual Plane are modelled with their kinds (`FormatException`, `ArgumentException`, `ArgumentOutOfRangeException`).
- `BufferLock` and concurrent access: operations are sequential.
- Console colour setting, the timestamp's text format and `Console.WriteLine` are I/O; the console is a list of rendered lines and `DateTime.Now` is the parameter `now`.
- Logging.DefaultColorForLevel: the default branch (`_ => White`) is reached only by an out-of-range enum value such as `(LoggingLevel)7`; the level datatype has exactly the four named levels, so such values are not modelled.
- Logging.UpperChar: `ToUpper` is modelled on ASCII letters only, and as the invariant culture's mapping; the source's `ToUpper()` uses the current culture, so under tr-TR `"Info"` becomes `"İNFO"` and `LevelTextIsAligned`'s `"INFO "` no longer holds.
- Logging.Logger.GetBufferLabels: the order of the labels (a dictionary's key order) is not specified.
- .NET `List<T>` aliasing: buffers and returned lists are values, so `GetHeldLogs` returning a copy is automatic.
- `-0.0` is not distinguished from `0.0`; boxed values other than `int`, `double` and `string` are abstracted as `OtherValue`.
- src/Utils/MailBody.cs, src/Utils/MailSender.cs, src/Utils/FileHandler.cs, src/Utils/EmbeddedResourceHandler.cs and src/Utils/Testing/Ensure.cs are not part of this model (templating, SMTP, filesystem and test helpers).
