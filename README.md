# Integrity binding of Evidence Packs, modelled in Dafny

An Evidence Pack is a JSON object recording one execution. Its integrity
binding is the SHA-256 of the pack's canonical JSON bytes. The digest is
stored inside the pack at `execution.integrity.pack_sha256`. The binding
module does four things:

- **Canonical encoding.** `_canonical_json_bytes` is `json.dumps` with
  sorted keys, `","`/`":"` separators and no ASCII escaping, encoded as
  UTF-8.
- **Binding form.** `canonicalize_for_binding` refuses anything that is not
  an object. Otherwise it removes the self-referential
  `execution.integrity` block and any top-level `integrity` key from a copy,
  then encodes what is left.
- **Digest.** `compute_integrity_binding` hashes those bytes.
- **Verify and attach.**
  - `verify_integrity_binding` walks a fixed chain of checks and reports
    the first one that fails as an `IntegrityResult`.
  - `attach_integrity_binding` creates the two blocks where they are
    missing, then writes the digest and a timestamp into a copy of the pack.

Files:

| file | module | what it holds |
|---|---|---|
| `wrappers.dfy` | `Wrappers` | `Option` |
| `json_value.dfy` | `JsonValue` | JSON values as a datatype. A dict is an association list in insertion order. The dict operations the module uses are `get`, item assignment, `setdefault` and `pop`. |
| `utf8.dfy` | `Utf8` | The UTF-8 encoder and a decoder that undoes it. |
| `canonical_json.dfy` | `CanonicalJson` | The canonical encoder: code-point key order, Python's string escaping, decimal integers. |
| `canonical_order.dfy` | `CanonicalOrder` | Key-order independence of the encoding. |
| `canonical_lexing.dfy` | `CanonicalLexing` | No whitespace between tokens and no raw control characters. |
| `canonical_injective.dfy` | `CanonicalInjective` | The canonical text can be read back: equal texts mean equal content. |
| `py_text.dfy` | `PyText` | Python's `str()` of a JSON value. The verifier puts it in `expected` when the stored digest is malformed. |
| `replay.dfy` | `Replay` | The binding functions, the producer and the verifier, and the properties that relate them. |

Design choices:

- **Hash.** SHA-256 is a parameter `sha` of type `Sha256`: any function from
  bytes to 64 lower-case hex digits. Every property below holds for every
  such function. The canonical bytes of two well-formed packs agree
  exactly when their binding forms hold the same content
  (`BindingBytesIff`). So `ForgeryNeedsCollision` turns "the binding
  detects every change of content outside the integrity blocks" into
  "an undetected change exhibits a collision of `sha`".
- **Clock.** The timestamp the producer would read from the clock is the
  parameter `now`. `computed_at` is an optional string; empty or absent
  means `now`, as in Python's `computed_at or ...`.
- **State.** `canonicalize_for_binding` and `attach_integrity_binding`
  work by updating a private copy, so they are methods:
  - `CanonicalizeForBinding` is proved against the function `BindingForm`;
  - `AttachIntegrityBinding` is proved equal to the function `Attached`.

  The copy is value semantics, so the caller's pack is never changed.
- **Dict behaviour.** Item assignment to a present key keeps the key's
  position. `pop` drops the key.

## Model

| member | source | states |
|---|---|---|
| CanonicalJson.CanonicalJsonBytes | veip_verifier_core/replay.py:14-22 | The canonical bytes are at least as long as the canonical text, and UTF-8 decoding gives back exactly that text. |
| CanonicalJson.SortByKey | veip_verifier_core/replay.py:22 | `sort_keys=True`: the (key, text) pairs come out ordered by code point and are a permutation of the input pairs. |
| CanonicalJson.InsertByKey | veip_verifier_core/replay.py:22 | Inserting one pair into a key-sorted list keeps it sorted, and its multiset gains exactly that pair. |
| CanonicalJson.LessTotal | veip_verifier_core/replay.py:22 | Code-point order on keys is total: two keys are equal or one precedes the other. |
| CanonicalJson.LessTransitive | veip_verifier_core/replay.py:22 | Code-point order on keys is transitive. |
| CanonicalJson.LessIrreflexive | veip_verifier_core/replay.py:22 | No key precedes itself. |
| CanonicalJson.IntText | veip_verifier_core/replay.py:22 | An integer is rendered in decimal: a leading `-` exactly for negatives, then at least one digit. The digits denote the magnitude and have no leading zero, except `0` itself. |
| CanonicalJson.EscapeChar | veip_verifier_core/replay.py:22 | With `ensure_ascii=False` only `"`, `\` and the C0 controls are escaped, each by a sequence starting with a backslash. Every other character, non-ASCII ones included, is written as itself. |
| CanonicalJson.PlainTextUnescaped | veip_verifier_core/replay.py:22 | Text with no quote, backslash or control character is copied into the literal unchanged. |
| CanonicalJson.DecimalDigitsValue | veip_verifier_core/replay.py:22 | The decimal digits of n denote n. |
| CanonicalJson.IntTextInjective | veip_verifier_core/replay.py:22 | Different integers have different renderings. |
| CanonicalJson.EscapeCharPrefixFree | veip_verifier_core/replay.py:22 | No escape sequence of one character is a prefix of another character's, so escaped text can be read back. |
| CanonicalJson.EscapeInjective | veip_verifier_core/replay.py:22 | Different strings escape to different texts (`ensure_ascii=False` escaping). |
| CanonicalJson.QuoteInjective | veip_verifier_core/replay.py:22 | Different strings give different string literals. |
| Utf8.Encode | veip_verifier_core/replay.py:22 | A string's UTF-8 bytes number between one and four per character. |
| Utf8.EncodeChar | veip_verifier_core/replay.py:22 | One character is 1 to 4 bytes. It is a single byte equal to its code exactly when it is ASCII; otherwise every byte is 0x80 or above. |
| Utf8.DecodeEncodeChar | veip_verifier_core/replay.py:22 | Decoding the front of an encoded character, whatever bytes follow, gives that character and its length. |
| Utf8.DecodeEncode | veip_verifier_core/replay.py:22 | `.encode("utf-8")` loses nothing: decoding the bytes of any string gives the string. |
| Utf8.EncodeInjective | veip_verifier_core/replay.py:22 | Different strings have different UTF-8 bytes. |
| Utf8.EncodeAppend | veip_verifier_core/replay.py:22 | Encoding a concatenation is the concatenation of the encodings. |
| CanonicalOrder.EncodeIgnoresInsertionOrder | veip_verifier_core/replay.py:22 | An object whose members are a permutation of another's (distinct keys) encodes to the same text. |
| CanonicalOrder.EncodeRespectsSameContent | veip_verifier_core/replay.py:22 | Two trees with the same keys and values at every level, in any member order, encode to the same text. |
| CanonicalOrder.CanonicalBytesRespectSameContent | veip_verifier_core/replay.py:22 | The same holds for their canonical bytes. |
| CanonicalOrder.SortByKeySameElements | veip_verifier_core/replay.py:22 | Sorting two lists with distinct keys and the same elements gives the same list. |
| CanonicalOrder.StrictlySortedUnique | veip_verifier_core/replay.py:22 | Two strictly key-sorted lists holding the same elements are equal. |
| CanonicalOrder.PermutationKeepsDistinct | veip_verifier_core/replay.py:22 | A permutation of a sequence whose keys are distinct has distinct keys. This holds for (key, text) pairs and for dict members alike. |
| CanonicalOrder.SameContentReflexive | veip_verifier_core/replay.py:22 | Every well-formed tree has the same content as itself. |
| CanonicalInjective.EncodeLead | veip_verifier_core/replay.py:16-22 | The first character of a value's text tells its kind, each exactly: `n` for null, `t` and `f` for the booleans, `"` for strings, `[` for arrays, `{` for objects. No value's text starts with a comma or a closing bracket. |
| CanonicalInjective.IntTextDelimited | veip_verifier_core/replay.py:22 | A number's text followed by a separator, a closing bracket or nothing splits in one way only, and it determines the number. |
| CanonicalInjective.QuotePrefix | veip_verifier_core/replay.py:22 | A string literal followed by any text splits in one way only, and it determines the string. |
| CanonicalInjective.EncodeDelimited | veip_verifier_core/replay.py:16-22 | A value's text followed by a separator, a closing bracket or nothing splits in one way only. |
| CanonicalInjective.EncodeDeterminesContent | veip_verifier_core/replay.py:14-22 | Two well-formed values with the same canonical text hold the same content at every level. |
| CanonicalInjective.EncodeSameContentIff | veip_verifier_core/replay.py:14-22 | Two well-formed values have the same canonical text exactly when they hold the same content. |
| CanonicalInjective.CanonicalBytesSameContentIff | veip_verifier_core/replay.py:14-22 | The same holds of their canonical UTF-8 bytes. |
| CanonicalLexing.EncodeClosed | veip_verifier_core/replay.py:16-22 | Lexed with string literals tracked, every encoded value is a complete run of tokens. Outside the literals it holds only `{}[],:`, `-`, digits and the letters of `true`/`false`/`null`. |
| CanonicalLexing.NoWhitespaceOutsideStrings | veip_verifier_core/replay.py:16-22 | No space, tab, CR or LF occurs outside string literals, and the text ends outside a literal. |
| CanonicalLexing.EscapeStaysInString | veip_verifier_core/replay.py:22 | An escaped string never ends the literal early. |
| CanonicalLexing.EncodePrintable | veip_verifier_core/replay.py:22 | The canonical text contains no raw control character, even inside literals. |
| JsonValue.FirstIndex | veip_verifier_core/replay.py:43 | The position `d.get(k)` reads: no earlier member holds `k`, the member there holds `k`, and it lies inside the dict exactly when `k` is a key. |
| JsonValue.Get | veip_verifier_core/replay.py:43 | `d.get(k)` is absent exactly when `k` is not a key. Otherwise it is the value of the first member with that key. |
| JsonValue.Set | veip_verifier_core/replay.py:106-107 | `d[k] = v`: the keys gain `k`. A present key keeps every key in its position; an absent key is appended. |
| JsonValue.GetSet | veip_verifier_core/replay.py:106-107 | After `d[k] = v`, `k` reads `v` and every other key reads as before. |
| JsonValue.SetKeepsDistinct | veip_verifier_core/replay.py:106-107 | Assignment keeps a dict's keys distinct. |
| JsonValue.SetSet | veip_verifier_core/replay.py:106-107 | The second of two writes to one key wins. |
| JsonValue.SetGet | veip_verifier_core/replay.py:106-107 | Writing back the value a key already holds changes nothing. |
| JsonValue.Remove | veip_verifier_core/replay.py:45 | `d.pop(k, None)`: the keys lose `k`, and the dict is unchanged when `k` was absent. |
| JsonValue.GetRemove | veip_verifier_core/replay.py:45 | After `pop(k)`, `k` reads absent and every other key reads as before. |
| JsonValue.RemoveKeepsDistinct | veip_verifier_core/replay.py:45 | `pop` keeps a dict's keys distinct. |
| JsonValue.RemoveSet | veip_verifier_core/replay.py:45 | Writing a key and then popping it is the same as popping it. |
| JsonValue.RemoveSetOther | veip_verifier_core/replay.py:45-48 | Writing one key commutes with popping another. |
| JsonValue.SetDefault | veip_verifier_core/replay.py:98 | `d.setdefault(k, x)`: `k` reads its old value if present, otherwise `x`. Other keys are unchanged and distinct keys stay distinct. |
| JsonValue.SetDefaultThenSet | veip_verifier_core/replay.py:98-101 | `setdefault` followed by an assignment to the same key is just the assignment. |
| Replay.Sha256Hex | veip_verifier_core/replay.py:25-26 | `sha256_hex` returns 64 lower-case hex digits. |
| Replay.CanonicalizeForBinding | veip_verifier_core/replay.py:29-51 | Fails with `ReplayError("Evidence Pack must be an object.")` exactly when the input is not an object. Otherwise it returns the binding form of the pack and that form's canonical bytes. |
| Replay.BindingFormKeys | veip_verifier_core/replay.py:43-48 | The binding form has the pack's top-level keys without `integrity`, and keeps keys distinct. |
| Replay.BindingFormStripsExecution | veip_verifier_core/replay.py:43-45 | When `execution` is an object, it loses `integrity` and keeps every other key and value. |
| Replay.BindingFormKeepsNonObjectExecution | veip_verifier_core/replay.py:43-44 | An `execution` that is not an object is kept as it is. |
| Replay.BindingFormKeepsOthers | veip_verifier_core/replay.py:40-48 | Every top-level key other than `integrity` and `execution` keeps its value. |
| Replay.BindingFormWellFormed | veip_verifier_core/replay.py:40-48 | Removing the integrity blocks from a proper dict leaves a proper dict. |
| Replay.BindingBytesIff | veip_verifier_core/replay.py:29-51 | The bytes hashed for two well-formed packs agree exactly when their binding forms hold the same content. |
| Replay.ComputeIntegrityBinding | veip_verifier_core/replay.py:62-64 | Fails exactly for non-objects, with the canonicaliser's error. Otherwise it is the hash of the binding form's canonical bytes, 64 lower-case hex digits. |
| Replay.Digest | veip_verifier_core/replay.py:62-64 | The digest of a pack is 64 lower-case hex digits. |
| Replay.BindingIgnoresIntegrityValue | veip_verifier_core/replay.py:42-45 | Replacing or adding `execution.integrity` leaves the binding form unchanged. |
| Replay.BindingIgnoresIntegrityRemoval | veip_verifier_core/replay.py:42-45 | Removing `execution.integrity` leaves the binding form unchanged. |
| Replay.BindingIgnoresTopLevelIntegrity | veip_verifier_core/replay.py:47-48 | Adding, replacing or dropping a top-level `integrity` leaves the binding form unchanged. |
| Replay.DigestIgnoresIntegrity | veip_verifier_core/replay.py:42-64 | The digest does not depend on the contents of `execution.integrity` or on whether it is present. |
| Replay.DigestIgnoresTopLevelIntegrity | veip_verifier_core/replay.py:42-64 | Nor does it depend on a top-level `integrity`, whatever `execution` holds. |
| Replay.VerifyIntegrityBinding | veip_verifier_core/replay.py:67-90 | The checks run in the source's order and the first failure decides the result. A non-object `execution` gives "missing execution block" with empty digests. A non-object `integrity` gives "missing execution.integrity block". A `pack_sha256` that is not a 64-character string gives "missing/invalid integrity.pack_sha256", `expected` its `str()` and `computed` empty. Otherwise `expected` is the stored value, `computed` is the digest, and `ok` holds iff they are equal, with reason "ok" or else "hash mismatch". |
| Replay.VerifyOkIff | veip_verifier_core/replay.py:81-90 | The verifier accepts exactly when the stored digest is the pack's digest, and exactly when the reason is "ok". |
| Replay.VerifySeesOnly | veip_verifier_core/replay.py:73-90 | The result depends only on which blocks are objects, the stored `pack_sha256` value and the digest. |
| Replay.VerifyIgnoresIntegrityExtras | veip_verifier_core/replay.py:81-90 | Changing any key of `execution.integrity` other than `pack_sha256` (such as `computed_at`) leaves the verdict unchanged. |
| Replay.ForgeryNeedsCollision | veip_verifier_core/replay.py:62-90 | Suppose two well-formed packs both verify against the same stored digest, yet their binding forms hold different content. Then their canonical bytes differ and the hash maps both to one value. |
| Replay.Attached | veip_verifier_core/replay.py:93-108 | The producer fails exactly when `execution`, or `execution.integrity`, is present but not an object, with the matching message. Otherwise it yields the pack with the bound integrity block written in. |
| Replay.AttachIntegrityBinding | veip_verifier_core/replay.py:93-108 | The method runs `setdefault`, the object checks, the digest and the two writes on a copy. Its result equals `Attached`. |
| Replay.DefaultExecution | veip_verifier_core/replay.py:98-100 | After `setdefault("execution", {})`, `execution` is an object exactly when the producer does not raise "execution must be an object". It is then the old object or `{}`. |
| Replay.DefaultIntegrity | veip_verifier_core/replay.py:101-103 | The same for `execution.integrity`. Defaulting it equals assigning the old block or `{}`. |
| Replay.BoundContents | veip_verifier_core/replay.py:105-107 | The written block holds the digest of the defaulted pack and the stamp. Every other key keeps its old value. |
| Replay.AttachKeepsOtherKeys | veip_verifier_core/replay.py:97-107 | What is kept: top-level keys other than `execution`, the keys of `execution` other than `integrity`, and the keys of `execution.integrity` other than `pack_sha256` and `computed_at`. The top-level keys gain `execution`, and distinct keys stay distinct. |
| Replay.AttachWritesDigest | veip_verifier_core/replay.py:105-107 | The stored `pack_sha256` is the digest of the very pack returned, and `computed_at` is the stamp. |
| Replay.AttachThenVerify | veip_verifier_core/replay.py:67-108 | Round trip: a freshly bound pack verifies with `ok` true, reason "ok", and `expected` and `computed` both its digest. This holds for every hash function and timestamp. |
| Replay.AttachIdempotent | veip_verifier_core/replay.py:93-108 | Binding a freshly bound pack again with the same timestamp returns it unchanged. |
| Replay.WithIntegrityBindingForm | veip_verifier_core/replay.py:42-45 | Whatever integrity block the producer writes, the binding form stays the same. So the digest computed before writing still holds after it. |
| PyText.QuoteFor | veip_verifier_core/replay.py:83 | `repr` picks a quote that needs escaping inside the text only when both kinds of quote occur. A text containing `"` is quoted with `'`. |
| PyText.ReprChar | veip_verifier_core/replay.py:83 | A character `repr` writes as itself is never the quote or a backslash. Every escape starts with a backslash. A printable character that is neither quote nor backslash is written as itself. |
| PyText.ReprCharPrefixFree | veip_verifier_core/replay.py:83 | No `repr` escape of one character is a prefix of another's. |
| PyText.ReprStr | veip_verifier_core/replay.py:83 | `repr` of a string begins and ends with the chosen quote. |
| PyText.ReprStrInjective | veip_verifier_core/replay.py:83 | Different strings have different `repr`s. |
| PyText.Str | veip_verifier_core/replay.py:83 | `str(x)`: a string is itself, a missing value or JSON null is `None`, a boolean is `True` or `False`, and an integer is its decimal text. |

## Left out

- `sha256_hex`: SHA-256 itself is not modelled. The hash is a parameter
  constrained only to return 64 lower-case hex digits.
- `datetime.utcnow()`: the clock is not modelled. Its formatted reading is
  the parameter `now`.
- Deep copy: the `json.loads(json.dumps(...))` copies are value semantics.
  They do not model the copy's side effects: values that are not JSON,
  tuples becoming lists, non-string keys becoming strings, and the errors
  these raise.
- Floating-point numbers: JSON numbers are integers. Python's float
  rendering, `NaN`/`Infinity`, and the limit on the digits of an integer
  conversion are not modelled.
- Lone surrogates: a Dafny `char` is a Unicode scalar value. So strings
  containing lone surrogates, which `.encode("utf-8")` would reject, cannot
  be expressed.
- Non-dict arguments: `VerifyIntegrityBinding` and `AttachIntegrityBinding`
  take the pack's members, as their `Dict` annotations say. A non-dict
  argument, which raises `AttributeError` or `TypeError` in Python, is out
  of scope.
- PyText.ReprChar: `repr` escaping of characters above U+00FF that Python
  does not consider printable (the `\uXXXX`/`\UXXXXXXXX` forms) is not
  modelled. Those characters are shown as themselves. Python's `str()` of
  a float is not modelled either.
- PyText.Str: states its result for strings, null, a missing value,
  booleans and integers. For lists and dicts its contract does not spell out the `repr`
  text; the function computes it.
- The callers disagree with `replay.py`, and the model follows `replay.py`.
  `veip_verifier_core/cli.py` and the tests call
  `verify_integrity_binding` with a `require_binding` argument, read a `got`
  field, and expect reasons such as "binding mismatch" and a carrier at
  `execution.outcome.result_ref`. None of that exists in
  `veip_verifier_core/replay.py`, so that protocol is not modelled.
- `veip_verifier_core/schema.py` (file loading and a JSON Schema validator)
  and `veip_verifier_core/cli.py` (argument parsing, printing, exit codes)
  are not part of this model.
