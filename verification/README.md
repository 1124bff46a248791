# passwordGen — verified model of password derivation

`passwordGen.py` is a tkinter utility that, on "Generate", reads a length
from an input field, draws `(length*6 + 7) // 8` random bytes, encodes them
with `base64.b64encode` and shows the first `length` characters. "Copy" and
"Save" put the shown password on the clipboard or into
`generated_password.txt`, but only when the stripped text of the output box
is non-empty.

This project models that core in Dafny and proves its properties:

- `wrappers.dfy` — `Option` and `Result`.
- `base64.dfy` (module `Base64`) — standard Base64 as section 4 of RFC 4648
  defines it, which is what `base64.b64encode` produces. It also holds a
  strict decoder. The source never decodes. The decoder is there so that the
  encoder has an inverse: it accepts exactly the encodings and gives back
  their bytes. `GroupBits`, `Final1Bits` and `Final2Bits` state the bit
  layout of section 4 of RFC 4648: each group is one number, most significant
  byte first, and the characters are its 6-bit digits. The test vectors of
  section 10 of RFC 4648 are proved as examples.
- `text.dfy` (module `Text`) — Python's `str.strip()` over the characters
  `str.isspace` accepts.
- `password.dfy` (module `PasswordGen`) — length validation, the byte count,
  encode-and-truncate (`Derive`) and the whole derivation with its two errors
  (`Generate`). The random bytes are a parameter of length
  `BytesNeeded(length)`. That makes generation a function of the length and
  the bytes.
- `app.dfy` (module `PasswordGenApp`) — the one-slot state. The output box is
  an `Option<string>`. The handlers are pure functions that return the new
  state, the message box they raise (`Notice`) and the outside action they
  request (`Effect`).

Two observations about the code as written, both proved:

- The truncated password never reaches the `=` padding. `BytesNeeded(L)`
  bytes always encode to at least `L` data characters. A password therefore
  never contains `=`. The full encoding is `L` rounded up to a multiple of
  four, so truncation removes nothing when `L % 4 == 0`. That includes the
  default 64 and both bounds, 8 and 512.
- The header comment (passwordGen.py:6) calls the passwords "URL-friendly",
  but `b64encode` uses the standard alphabet, which includes `+` and `/`.
  `PasswordGen.PasswordMayUseUrlReservedChars` exhibits passwords made of
  only `/` and only `+`. The model follows the code.

## Model

| member | source | states |
|---|---|---|
| Base64.IndexToChar | passwordGen.py:168 | the character for each 6-bit value decodes back to that value and is never the pad character |
| Base64.CharToIndex | passwordGen.py:168 | only the 64 alphabet characters carry a value, it lies in [0, 64), and `=` carries none |
| Base64.CharToIndexInverse | passwordGen.py:168 | every alphabet character is the encoding of the value it decodes to |
| Base64.AlphabetTable | passwordGen.py:168 | the arithmetic mapping agrees with the literal table `A–Z a–z 0–9 + /` of RFC 4648 section 4, and the alphabet characters are exactly the table's members |
| Base64.Encode | passwordGen.py:168 | the encoding of n bytes has 4·ceil(n/3) characters; the first ceil(4n/3) are alphabet characters and the rest are `=` |
| Base64.GroupBits | passwordGen.py:168 | a complete group is read as the 24-bit number a·2^16 + b·2^8 + c, and the four characters are its 6-bit digits, most significant first, as section 4 of RFC 4648 defines |
| Base64.Final1Bits | passwordGen.py:168 | a final single byte, followed by four zero bits, is the 12-bit number whose two 6-bit digits the data characters carry |
| Base64.Final2Bits | passwordGen.py:168 | two final bytes, followed by two zero bits, are the 18-bit number whose three 6-bit digits the data characters carry |
| Base64.RfcTestVectorsPadded | passwordGen.py:168 | the test vectors of section 10 of RFC 4648 for "", "f" and "fo" encode to "", "Zg==" and "Zm8=" |
| Base64.RfcTestVectorFoo | passwordGen.py:168 | the test vector "foo" encodes to "Zm9v", an example of one complete group |
| Base64.RfcTestVectorsLong | passwordGen.py:168 | the test vectors "foob", "fooba" and "foobar" encode to "Zm9vYg==", "Zm9vYmE=" and "Zm9vYmFy" |
| Base64.PaddingLength | passwordGen.py:168 | the padding is (3 − n mod 3) mod 3 characters, so never more than two |
| Base64.DecodeEncode | passwordGen.py:168 | decoding the encoding of any bytes gives those bytes back, so the encoding loses nothing |
| Base64.EncodeDecode | passwordGen.py:168 | every string the strict decoder accepts is the encoding of what it decodes to |
| Base64.DecodeIffEncode | passwordGen.py:168 | a string decodes to some bytes exactly when it is their encoding |
| Text.StripStart | passwordGen.py:177 | leading whitespace is cut: the result is a suffix, everything cut is whitespace, and the result is empty or starts with non-whitespace |
| Text.StripEnd | passwordGen.py:177 | trailing whitespace is cut: the result is a prefix, everything cut is whitespace, and the result is empty or ends with non-whitespace |
| Text.Lead | passwordGen.py:177 | the number of leading whitespace characters: all of them are whitespace and the character after them is not |
| Text.Strip | passwordGen.py:177 | the stripped text is the slice of the input that starts after its leading whitespace, with only whitespace before and after it; it is empty exactly when the input is all whitespace, and otherwise starts and ends with non-whitespace |
| Text.StripTrailingNewline | passwordGen.py:186 | a non-empty string without whitespace, followed by a newline, strips back to itself |
| PasswordGen.ValidLength | passwordGen.py:157 | the range test accepts 8 ≤ L ≤ 512, and every accepted length asks for between 6 and 384 random bytes |
| PasswordGen.BytesNeeded | passwordGen.py:166 | the byte count `(6L+7)//8` is the least n with 8n ≥ 6L, that is ceil(6L/8) |
| PasswordGen.Take | passwordGen.py:168 | Python's `s[:k]` keeps min(k, len(s)) characters from the front |
| PasswordGen.EncodingCoversLength | passwordGen.py:166-168 | ceil(6L/8) bytes give at least L data characters, and their encoding is L rounded up to a multiple of four |
| PasswordGen.Derive | passwordGen.py:166-168 | the password has exactly L characters, is a prefix of the encoding, uses only alphabet characters and contains no `=` |
| PasswordGen.Generate | passwordGen.py:155-168 | a password is produced exactly when the input parses to an integer in [8, 512]; unparsable input is InvalidInput, an out-of-range length is InvalidLength; a produced password has the requested length and only alphabet characters |
| PasswordGen.TruncationCutsPartialGroup | passwordGen.py:166-168 | truncation removes nothing exactly when L is a multiple of four, and otherwise fewer than four characters |
| PasswordGen.WholePasswordDecodes | passwordGen.py:166-168 | when L is a multiple of four the password decodes back to all the random bytes |
| PasswordGen.DefaultLengthUsesWholeEncoding | passwordGen.py:166-168 | the default length 64 (the field's initial value, line 101) draws 48 bytes, whose 64-character encoding has no padding and is the whole password |
| PasswordGen.BoundaryLengths | passwordGen.py:157 | the bounds 8 and 512 draw 6 and 384 bytes, whose encodings are exactly 8 and 512 characters |
| PasswordGen.PasswordMayUseUrlReservedChars | passwordGen.py:168 | some byte sequences give passwords made entirely of `/` or entirely of `+`, so the output is not URL-safe |
| PasswordGenApp.OnGenerate | passwordGen.py:153-174 | an error leaves the state unchanged and raises the matching message; success replaces the box with the derived password and requests no outside action |
| PasswordGenApp.OnCopy | passwordGen.py:176-183 | the state never changes; the clipboard is set exactly when the box holds a non-whitespace character, and then to the stripped text; otherwise a warning |
| PasswordGenApp.OnSave | passwordGen.py:185-192 | the state never changes; the save file is overwritten exactly when the box holds a non-whitespace character, and then with the stripped text; otherwise a warning and no write |
| PasswordGenApp.BoxText | passwordGen.py:177 | the text tkinter's `get(1.0, END)` returns is the shown password, or nothing, followed by one newline |
| PasswordGenApp.ShownPassword | passwordGen.py:177-178 | the box text read back and stripped is empty exactly when no password with a non-whitespace character is shown; this is the `if password:` test of Copy and Save |
| PasswordGenApp.BoxTextNonSpace | passwordGen.py:177 | the newline tkinter appends does not make an empty box look non-empty |
| PasswordGenApp.GeneratedPasswordReadsBack | passwordGen.py:171-177 | a generated password read back from the box and stripped is the password unchanged |
| PasswordGenApp.CopyAfterGenerate | passwordGen.py:171-183 | after a successful generation Copy puts exactly the new password on the clipboard |
| PasswordGenApp.SaveAfterGenerate | passwordGen.py:185-192 | after a successful generation Save writes exactly the new password, with no trailing newline, to `generated_password.txt` |
| PasswordGenApp.NothingBeforeGenerate | passwordGen.py:176-192 | before any generation Copy and Save only warn and request nothing |
| PasswordGenApp.GenerateReplaces | passwordGen.py:171-174 | a successful generation replaces the shown password rather than appending: the new state does not depend on the old one |

## Left out

- Window, widget and style construction, layout and `mainloop` (passwordGen.py:18-151). This is presentation with no invariants.
- The Quit button (passwordGen.py:124). It ends the process and has no state rule.
- `messagebox` dialogs. Each handler returns the dialog it would raise as a `Notice` value instead.
- `secrets.token_bytes` (passwordGen.py:167). Entropy cannot be modelled, so the bytes are an arbitrary input of the required length.
- The clipboard calls and the file write (passwordGen.py:179-180, 188-189). They are I/O and are returned as `Effect` values. The model states the text written but not the file system. A failed `open` or `write`, which would raise before the "Saved" dialog, is not modelled: `OnSave` always pairs the write with `SavedInfo`.
- Python's `int()` parsing (passwordGen.py:156). Whitespace, signs and underscores are not modelled: the parsed field is an `Option<int>` and `None` stands for a `ValueError`.
- The word wrapping of the output box. It changes only how the password is displayed, not the text read back.
