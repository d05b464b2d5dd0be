# Velu Mobile: colour tokens and loading state, in Dafny

This project models the two pieces of the Velu Mobile client that hold their own logic.

- **`hexToRgba`** is in the design-token module `src/lib/tokens/index.js`. It reads a CSS colour `#RRGGBB` at fixed positions. Each of the slices `hex.slice(1, 3)`, `hex.slice(3, 5)` and `hex.slice(5, 7)` goes through `parseInt(_, 16)`. The function then writes the CSS text `rgba(r, g, b, alpha)`, where `alpha` defaults to 1. The module's `colors` table supplies the colours it is meant to take.
- **`useLoading`** is in `src/lib/composables/useLoading.js`. It returns an object with two cells: `isLoading`, which starts as `false`, and `message`, which starts as `"Cargando..."`. It has one setter, `setLoading(loading, loadingMessage = "Cargando...")`. The setter always overwrites the flag and overwrites the message only when `loading` is true. Two getters read the cells.

Files:

- `options.dfy`: an `Option` type. It stands for a JavaScript argument that may be omitted.
- `tokens.dfy` (module `Tokens`), in the functional style of its source:
  - the hex digit value, with a lower-case digit encoder as its inverse;
  - `ParseHex`, which models `parseInt(_, 16)` on strings of hex digits;
  - `Channels`, the three decoded channels;
  - `ToHex`, a `#rrggbb` encoder and the partner of `Channels`;
  - `DecimalString`, the decimal text a template literal writes for a number;
  - `Serialize` and `HexToRgba`, which write the output text;
  - `ParseRgba`, the parser that partners `Serialize`;
  - `Colors`, the colour table, keyed by `ColorName`.
- `loading.dfy` (module `Loading`): the class `LoadingHolder` has the two cells as fields, the setter as a `modifies this` method and the getters as methods that change nothing. Beside it, the value-level functions `State`, `Next` and `Run` describe what any sequence of `setLoading` calls leaves behind, and the class method's postcondition is tied to `Next`.

The source declares both cells of `useLoading` with `const` (useLoading.js:26-27) but reassigns them inside `setLoading` (useLoading.js:30, :32). The model follows the evident intent, shown by the setter's body and the usage example in the doc comment: the two cells are mutable fields.

## Model

| member | source | states |
|---|---|---|
| `Tokens.HexDigitValue` | src/lib/tokens/index.js:59-61 | A hex digit of either case has a value below 16, and that value is the one whose lower-case digit equals the digit lower-cased |
| `Tokens.HexDigitChar` | src/lib/tokens/index.js:59-61 | The encoder writes, for each value below 16, a hex digit that `parseInt` accepts, and always in lower case |
| `Tokens.DigitRoundTrip` | src/lib/tokens/index.js:59-61 | Reading back the digit written for a value gives that value |
| `Tokens.DigitCaseInsensitive` | src/lib/tokens/index.js:59-61 | Two hex digits have the same value if and only if they agree after lower-casing |
| `Tokens.ParseHex` | src/lib/tokens/index.js:59-61 | `parseInt(s, 16)` on k hex digits, for k from 1 to 13 (where the double it returns is exact), is below 16^k |
| `Tokens.ParsePair` | src/lib/tokens/index.js:59-61 | A two-digit slice is read as sixteen times its first digit plus its second |
| `Tokens.WellFormed` | src/lib/tokens/index.js:59-61 | What `hexToRgba` needs: at least seven characters, character 0 a single UTF-16 code unit (below U+10000), characters 1 to 6 hex digits of either case. It has no contract of its own; `SlicesFallOnCharacters` and `WideFirstCharacterShifts` state why character 0's width matters |
| `Tokens.SlicesFallOnCharacters` | src/lib/tokens/index.js:59-61 | On a well-formed colour the first i characters take exactly i UTF-16 code units for every i up to 7, so `slice(1, 3)`, `slice(3, 5)` and `slice(5, 7)` are characters 1-2, 3-4 and 5-6 |
| `Tokens.WideFirstCharacterShifts` | src/lib/tokens/index.js:59-61 | A character 0 at or above U+10000 takes two code units, which would move every slice by one, and such a colour is not well formed |
| `Tokens.Channels` | src/lib/tokens/index.js:59-61 | Red is 16·digit(hex[1]) + digit(hex[2]), green uses hex[3] and hex[4], blue uses hex[5] and hex[6], and each channel lies in 0..255 |
| `Tokens.ToHex` | src/lib/tokens/index.js:57-61 | Encoding an in-range colour gives `#` and six lower-case hex digits, which `hexToRgba` accepts |
| `Tokens.DecodeEncode` | src/lib/tokens/index.js:57-61 | For every r, g and b in 0..255, decoding the `#rrggbb` encoding gives back r, g and b |
| `Tokens.EncodeDecode` | src/lib/tokens/index.js:57-61 | For every lower-case `#rrggbb` colour, encoding its decoded channels gives back its first seven characters |
| `Tokens.CaseInsensitive` | src/lib/tokens/index.js:59-61 | Two colours whose characters 1 to 6 agree after lower-casing decode to the same channels |
| `Tokens.DecimalString` | src/lib/tokens/index.js:62 | A channel is written as a non-empty string of decimal digits that starts with `0` only for the number 0 and denotes the number it was written from |
| `Tokens.DecimalStringInjective` | src/lib/tokens/index.js:62 | Different numbers are written as different decimal texts |
| `Tokens.SerializeParses` | src/lib/tokens/index.js:62 | Reading the `rgba(r, g, b, alpha)` text back gives the channels and the alpha text it was written from |
| `Tokens.AlphaText` | src/lib/tokens/index.js:58 | An omitted `alpha` is written as `1`; a given one is written as its own text |
| `Tokens.Serialize` | src/lib/tokens/index.js:62 | The template literal `rgba(${r}, ${g}, ${b}, ${alpha})`. It has no contract of its own; `SerializeParses` and `OutputText` state what it writes |
| `Tokens.HexToRgba` | src/lib/tokens/index.js:58-63 | `hexToRgba` itself: `Serialize` applied to `Channels` and `AlphaText`. It has no contract of its own; `HexToRgbaParses`, `OutputText`, `DefaultAlpha`, `OnlyDigitsRead` and `OutputDeterminesColour` state its properties |
| `Tokens.HexToRgbaParses` | src/lib/tokens/index.js:58-63 | The output of `hexToRgba` reads back as the channels at characters 1-2, 3-4 and 5-6 and the alpha text |
| `Tokens.OutputText` | src/lib/tokens/index.js:58-63 | The output is exactly `rgba(` + red + `, ` + green + `, ` + blue + `, ` + alpha + `)`, each channel in decimal and computed from its two hex digits |
| `Tokens.DefaultAlpha` | src/lib/tokens/index.js:58 | Omitting `alpha` gives the same text as passing 1 |
| `Tokens.OnlyDigitsRead` | src/lib/tokens/index.js:59-61 | Two well-formed colours that agree on characters 1 to 6 give the same output. Character 0 is read only for its UTF-16 width, which `WellFormed` fixes at one code unit, and anything after character 6 is never read |
| `Tokens.OutputDeterminesColour` | src/lib/tokens/index.js:58-63 | Two calls that give the same text decoded the same channels and were given the same alpha text |
| `Tokens.RoundTripText` | src/lib/tokens/index.js:57-63 | For every r, g and b in 0..255, converting the `#rrggbb` encoding writes exactly r, g and b in decimal |
| `Tokens.Colors` | src/lib/tokens/index.js:5-17 | The `colors` object as a lookup from its eleven keys (`ColorName`) to its colour strings, value for value. It has no contract of its own; `ColorsWellFormed` and `PrimaryToRgba` state its properties |
| `Tokens.ColorsWellFormed` | src/lib/tokens/index.js:5-17 | Every entry of `colors` is `#` and six lower-case hex digits, so it is a valid `hexToRgba` input |
| `Tokens.PrimaryToRgba` | src/lib/tokens/index.js:6 | The primary colour `#0ea5e9` converts to `rgba(14, 165, 233, 1)` |
| `Loading.Initial` | src/lib/composables/useLoading.js:26-27 | The initial state: not loading, with the message `Cargando...`. It is a constant; the constructor's postcondition states that a new holder starts in it |
| `Loading.LoadingHolder.constructor` | src/lib/composables/useLoading.js:25-27 | A new holder is not loading and holds the message `Cargando...` |
| `Loading.LoadingHolder.SetLoading` | src/lib/composables/useLoading.js:29-34 | The flag becomes `loading` whatever it was. When `loading` is true, the message becomes the given one, or `Cargando...` when none is given. Otherwise the message is unchanged |
| `Loading.LoadingHolder.IsLoading` | src/lib/composables/useLoading.js:37-39 | The getter returns the current flag and changes nothing |
| `Loading.LoadingHolder.Message` | src/lib/composables/useLoading.js:40-42 | The getter returns the current message and changes nothing |
| `Loading.Next` | src/lib/composables/useLoading.js:29-34 | The state after one `setLoading` call, to which `SetLoading`'s postcondition is tied. It has no contract of its own; `LastWriteWins`, `MessageIsLastShown`, `StoppingKeepsMessage` and `NextIdempotent` state its properties |
| `Loading.MessageOf` | src/lib/composables/useLoading.js:29 | The message a call shows: its own message when given, `Cargando...` when omitted |
| `Loading.LastWriteWins` | src/lib/composables/useLoading.js:30 | After any non-empty sequence of `setLoading` calls, the flag is the one the last call passed |
| `Loading.MessageIsLastShown` | src/lib/composables/useLoading.js:29-34 | After any sequence of calls, the message is that of the last call that turned loading on, or the earlier message when no call did |
| `Loading.StoppingKeepsMessage` | src/lib/composables/useLoading.js:31-33 | Calls with `loading` false never change the message, whatever message they pass |
| `Loading.NextIdempotent` | src/lib/composables/useLoading.js:29-34 | Repeating the same call changes nothing more |
| `Loading.LoadDataExample` | src/lib/composables/useLoading.js:12-19 | From any state, `setLoading(true, 'Cargando datos...')` followed by `setLoading(false)` leaves loading off with the message `Cargando datos...` |
| `Loading.LoadData` | src/lib/composables/useLoading.js:10-19 | On a fresh holder, the same two calls, read back through the getters, give `false` and `Cargando datos...` |

## Left out

- `hexToRgba` on malformed colours is not modelled. These are strings shorter than seven characters (such as `#fff`), strings with non-hex characters at positions 1 to 6, and strings whose character 0 lies outside the Basic Multilingual Plane. On them, JavaScript's `parseInt` parses the longest hex prefix of each slice or returns `NaN`, and its handling of whitespace, signs and a `0x` prefix is a host rule. `WellFormed` excludes these inputs, and every `colors` entry meets it (`ColorsWellFormed`).
- Dafny strings are sequences of code points, while JavaScript slices UTF-16 code units. `WellFormed` requires character 0 to take one code unit; characters 1 to 6 are hex digits, which take one each. On well-formed colours the two indexings therefore agree up to character 6, and later characters are never read.
- Tokens.ParseHex: models `parseInt(_, 16)` only on strings of one to 13 hex digits; `hexToRgba` passes it two-digit slices. Empty input, whose result is `NaN`, is not modelled. Longer strings are not modelled either: there `parseInt` rounds to a double, while an unbounded integer would be exact.
- Tokens.DecimalString: writes every number in plain base 10, while JavaScript writes exponent notation from 10^21 on. Channels are below 256, so `hexToRgba` never reaches that range.
- `alpha` is carried as the text its template-literal conversion writes. `None` stands for an omitted argument. The conversion of arbitrary JavaScript values (numbers, including floating point, and objects) to text is not modelled.
- The remaining tables of the token module (`spacing`, `radius`, `shadows`, `fontSize`, `opacity`) are plain constants that no code in the module reads, so they are not modelled.
- The reactivity of `$state` cells (change notification to the components bound to `isLoading` and `message`) is not modelled; the cells are plain fields.
- The navigation store, the install-prompt store, the backend client initializer and the transition helper are outside this model. Each is a thin wrapper around a library or a floating-point easing formula. The build, lint and packaging configuration files are outside it too.
