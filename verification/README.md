# LINE decluttering bot: signature check and reply selection

This project models the two pieces of the bot's webhook that have exact behaviour.

- **Signature primitive** (`app/utils.py`). `calc_line_signature` computes the `X-Line-Signature` value. It is the base64 encoding (section 4 of RFC 4648) of HMAC-SHA256 (RFC 2104) over the request body, keyed by the UTF-8 encoding of the channel secret. `verify_line_signature` checks a header against that value.
- **Event handler** (`app/handlers.py`, `LineEventHandler`). It picks the one reply for a text or an image message event.

Files:

- `wrappers.dfy`: `Option` (Python's `None`) and `Result` (a value or a raised exception).
- `base64.dfy`: a concrete base64 encoder over octets, and a strict decoder that is its inverse. The decoder exists so the encoder's round trip, injectivity and output shape can be proved.
- `signature.dfy`: `CalcSignature`, and verification in two versions. `VerifyAsWritten` follows the code. `Verify` is the intended total check (see Findings).
- `json.dfy`: the Python value of the loaded template, with Python truthiness.
- `strings.dfy`: joining and splitting lines, used to read the options out of the fallback menu.
- `handlers.dfy`: `HandleText`, `HandleImage` and `Dispatch` over message kinds.

HMAC-SHA256 and `str.encode()` are not modelled bit by bit. They are passed in as the two function fields of `Signature.Primitives`. The only fact used about HMAC-SHA256 is that its digest has 32 octets, which the type `Signature.Digest` carries.

The outbound `reply_message` call is not performed. Each handler returns it as a `ReplyCall` value that records the client used, the reply token and the message.

A handler is an immutable `Handler(client, template)` value. No function returns a new handler, so handling an event cannot change the stored client or template (app/handlers.py:13-22). This holds by construction, so no contract states it.

## Model

| member | source | states |
|---|---|---|
| `Signature.CalcSignature` | app/utils.py:19-29 | The signature decodes (base64) to exactly HMAC-SHA256(UTF-8 of the secret, body octets). It is 44 characters long. Its first 43 characters come from the RFC 4648 alphabet, and it ends in exactly one `=`. It is all ASCII. |
| `Signature.DigestEncoding` | app/utils.py:28-29 | The base64 encoding of any 32-octet digest decodes back to that digest. It has 44 characters: 43 alphabet characters, then one `=`. |
| `Signature.TextBodySignsItsEncoding` | app/utils.py:26-28 | A `str` body has the same signature as its UTF-8 encoding passed as `bytes`. |
| `Signature.CompareDigest` | app/utils.py:37-38 | `hmac.compare_digest` on two `str` values raises exactly when either one holds a non-ASCII character. Otherwise it returns whether they are equal. |
| `Signature.VerifyAsWritten` | app/utils.py:32-38 | A missing or empty header gives `False`. The code raises exactly when the header is non-empty and holds a non-ASCII character. When it returns, the result is true exactly when the header equals the computed signature. |
| `Signature.Verify` | app/utils.py:32-38 | The intended check is total. It is true exactly when the header is present, non-empty and equal to the computed signature. |
| `Signature.VerifyAcceptsSignature` | app/utils.py:19-38 | A header holding the computed signature is accepted, both by the intended check and by the code as written. |
| `Signature.VerifyRejectsMissingHeader` | app/utils.py:34-35 | `None` and `""` are rejected, whatever the secret and body. |
| `Signature.VerifyIsEquality` | app/utils.py:34-38 | Verification is exactly equality with the computed signature. The empty-header test adds nothing, because a signature is never empty. |
| `Signature.VerifyAsWrittenAgrees` | app/utils.py:32-38 | Where the code as written returns, it returns what the intended check returns. Where it raises, the intended check rejects. |
| `Signature.NonAsciiHeaderRaises` | app/utils.py:36-38 | The header `"é"` makes the code as written raise `TypeError`, while the intended check returns false. |
| `Signature.DistinctDigestsDistinctSignatures` | app/utils.py:28-38 | Bodies with different HMAC digests have different signatures. A header accepted for one body is rejected for the other. |
| `Base64.CharIndex` | app/utils.py:29 | A character has a 6-bit value exactly when it is in the alphabet of Table 1 of RFC 4648. Encoding that value gives the character back. |
| `Base64.DecodeEncode` | app/utils.py:29 | Decoding the base64 encoding of any octet sequence gives that sequence back. |
| `Base64.EncodeDecode` | app/utils.py:29 | Every string the strict decoder accepts is the encoding of what it decodes to. Encoding is therefore a bijection onto the canonical base64 strings. |
| `Base64.EncodeInjective` | app/utils.py:29 | Different octet sequences have different encodings. |
| `Base64.EncodeLength` | app/utils.py:29 | `n` octets encode to `4 * ceil(n / 3)` characters. |
| `Base64.EncodeShape` | app/utils.py:29 | An encoding is alphabet characters followed by `(3 - n mod 3) mod 3` `=` characters, and nothing else. |
| `Handlers.HandleText` | app/handlers.py:24-39 | One reply goes through the handler's client to the event's reply token. The reply acknowledges the text exactly when the text is one of `削除候補`, `非表示`, `残す`, and names that text. Otherwise the reply is the screenshot prompt. |
| `Handlers.HandleImage` | app/handlers.py:41-55 | With a falsy template (`None`, empty), the reply is the fallback menu. With a truthy template, there is a reply exactly when it is a `dict` with `altText` and `contents`, and that reply carries both values unchanged as a flex message. Every reply goes to the event's token through the handler's client. |
| `Handlers.Dispatch` | app/main.py:67-76 | Text and image message events get exactly one reply, to their own token, through the handler's client. Other message kinds get none. A text event never raises: its reply acknowledges the text exactly when it is a keyword, and is otherwise the screenshot prompt. An image event raises exactly when the template is truthy but not a `dict` with `altText` and `contents`. With a falsy template it gets the fallback menu, and otherwise a flex message carrying the template's `altText` and `contents` unchanged. |
| `Handlers.AcknowledgementReadsBack` | app/handlers.py:29 | The acknowledgement of `k` is `「` + `k` + `」を選択しました。お役に立てて良かったです！`, and `k` can be read back from it. |
| `Handlers.PromptIsNoAcknowledgement` | app/handlers.py:38 | The screenshot prompt acknowledges nothing. |
| `Handlers.AcknowledgementEchoesKeyword` | app/handlers.py:28-38 | The acknowledgement of a keyword contains the keyword, right after `「`. It is never the screenshot prompt. |
| `Handlers.PaddedKeywordGetsPrompt` | app/handlers.py:28-39 | Matching is exact, with no trimming. A keyword with any text added in front or behind gets the screenshot prompt. |
| `Handlers.NotPrefixOfAnother` | app/handlers.py:28 | No keyword is a proper prefix of another keyword. |
| `Handlers.NotSuffixOfAnother` | app/handlers.py:28 | No keyword is a proper suffix of another keyword. |
| `Handlers.FallbackMenuText` | app/handlers.py:54 | The fallback menu built from the keyword list is character for character the text the handler sends. |
| `Handlers.FallbackMenuOffersKeywords` | app/handlers.py:28-54 | The fallback menu's options (the lines after the header, without their `・` bullets) are exactly the three keywords, in keyword-list order. |
| `Handlers.MenuOptionsAreAcknowledged` | app/handlers.py:28-54 | A user who answers the fallback menu with any of its options gets an acknowledgement of that option. |

## Left out

- `app/main.py` routes and their I/O are not modelled: the FastAPI app, the `/` health route, `.env` loading, the dummy-credential fallback and reading `templates/comment_template.json`. The template enters the model only as the `Handler`'s `template` value.
- The linebot SDK is not modelled, as it is foreign code. This covers `WebhookHandler.handle` (its own signature check, event parsing and handler registration) and the mapping of `InvalidSignatureError` to status 400 and success to 200 (app/main.py:57-62). `app/main.py` never calls `app/utils.py`.
- `LineBotApi.reply_message` is not performed. A delivery failure inside it is not modelled. The call is returned as a `ReplyCall`.
- `FlexSendMessage` converting the template's `contents` into SDK container objects is not modelled. The flex message holds the template values unchanged.
- HMAC-SHA256 and SHA-256 internals are not modelled. HMAC is a function parameter whose result type fixes the 32-octet length.
- UTF-8 encoding (`str.encode()`) is a function parameter, not a bit-exact encoder. Python strings can hold lone surrogates, on which `str.encode()` raises. A Dafny `char` cannot hold one, so that error path is not modelled.
- The constant-time property of `hmac.compare_digest` cannot be stated. Only its result and its `TypeError` are modelled.
- JSON numbers in the template are integers. Floats from `json.loads` (and the falsiness of `0.0`) are not modelled.
- `tests/test_webhook.py` has no logic of its own. It checks status codes through mocks of the SDK.

## Findings

| source | as written | input that shows it | evidently intended | confidence | as-written member | corrected member |
|---|---|---|---|---|---|---|
| app/utils.py:36-38 | `hmac.compare_digest` is applied to two `str` values. For `str` operands it accepts only ASCII and raises `TypeError` otherwise. So `verify_line_signature` raises for a non-empty header holding a non-ASCII character, although it is documented as a boolean check. | header `"é"` (an HTTP header decoded as Latin-1 can carry it), any secret and body | return `False`, since a non-ASCII header can never equal the all-ASCII signature | high (CPython's documented `compare_digest` contract); not executed | `Signature.VerifyAsWritten`, exhibited by `Signature.NonAsciiHeaderRaises` | `Signature.Verify` |

The docstring (app/utils.py:33) and the `-> bool` annotation (app/utils.py:32) present verification as a boolean check, but the code can raise. The model follows the code in `VerifyAsWritten`, and it proves the intended total behaviour of `Verify`.

Two other points where the model follows the code:

- The fallback is chosen by `if self.flex_template:` (app/handlers.py:43), so any falsy template, including an empty `dict`, gets it.
- A truthy template that is not a `dict`, or lacks `altText` or `contents`, raises (`Handlers.HandlerError`).
