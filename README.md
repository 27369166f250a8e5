# Reordering notes by pairwise comparison — a Dafny model

The plugin lets a user rank notes along a numeric frontmatter metric. There is one
engine per metric, and each metric has a direction: ascending means lower values
rank better. The engine answers the question "which of these two is better?"
round after round.

The engine is `ReordenarModal`. It keeps the notes that carry the metric in a
fixed array, and the slots of that array never move. Each round:

1. It draws a random primary slot.
2. It pairs that slot with the ADJACENT slot before it, or with slot 1 when the
   primary is slot 0.
3. It redraws if the pair repeats the previous round's pair.
4. It shows the two notes in a direction-aware left/right order.

When the user's verdict disagrees with the stored values under the direction,
the two slots trade their values. Ending a round writes the values of its two
slots back to the notes' frontmatter.

The plugin also has settings: the tracked metrics, merged from the stored data
by `loadSettings`. Each metric gets a command identifier derived from its name
by `tenerMetricaId`.

Files:

- `texto.dfy` (module `Texto`): the ECMAScript string built-ins the code relies
  on, over characters rather than UTF-16 code units (see "Left out"). These are `trim` (with the WhiteSpace and LineTerminator code points),
  `slice(start)` (a negative start counts from the end) and `indexOf` (the
  first occurrence, or -1).
- `ajustes.dfy` (module `Ajustes`): `Metrica`, the stored-settings record with
  its defaults, and the class `OrdenarArchivosPlugin`. The class has the merge
  loop of `loadSettings` and the character loop of `tenerMetricaId`, proved
  against the functions `Fusionar` and `MetricaId`.
- `frontmatter.dfy` (module `Frontmatter`): `sacarFrontmatter` as written
  (over characters), the inputs on which it misbehaves, and a corrected version.
- `reordenar.dfy` (module `Reordenar`): the answer rule (`DebeCambiar`,
  `Responder`), the round selection (`Secundario`, the redraw condition,
  `PrimerAceptado`, `Ordenar`) and the class `ReordenarModal`.

Some of what the source does comes from outside the engine:

- The random draws become a parameter, `sorteos`. It is the sequence of values
  `Math.floor(Math.random() * n)` returns, one per pass of the redraw loop.
- The notes come from the metric query, which is not modelled. They are given
  to the constructor.
- A flush becomes the list of frontmatter writes it issues, of type
  `Escritura`.
- Metric values are integers.

## Model

| member | source | states |
|---|---|---|
| `Texto.Trim` | main.ts:97 | `trim` returns the slice of the name between its leading and trailing white space. The slice is empty only when the name is all white space. Otherwise it starts and ends with a non-space character. |
| `Texto.TrimIdempotente` | main.ts:97 | Trimming an already trimmed name changes nothing. |
| `Texto.Rebanar` | main.ts:229-234 | `slice(start)` always returns a suffix of its input. For a start in range it drops exactly `start` characters. For a negative start it keeps the last `-start` characters, or the whole text when `-start` exceeds its length. A start past the end gives the empty string. |
| `Texto.IndiceDe` | main.ts:231-232 | `indexOf` returns the position of the first occurrence of the pattern. It returns -1 exactly when the pattern occurs nowhere. |
| `Ajustes.BuscarNombre` | main.ts:63 | `findIndex` returns the first entry with the given name. It returns -1 exactly when no entry has that name. |
| `Ajustes.OrdenarArchivosPlugin.constructor` | main.ts:24 | The plugin starts with no tracked metrics. |
| `Ajustes.Fusionar` | main.ts:59-65 | Merging `k` stored names adds at most `k` entries and removes none. |
| `Ajustes.OrdenarArchivosPlugin.LoadSettings` | main.ts:56-66 | A missing data file or a missing key falls back to the empty defaults. The loop leaves `settings` equal to the merge of the stored names into the previous settings. A settings list without duplicate names keeps none. |
| `Ajustes.FusionarConservaPrevias` | main.ts:59-65 | Merging only appends. The previous settings stay in place and in order. |
| `Ajustes.FusionarSinDuplicados` | main.ts:63-64 | If the previous settings have no two entries with the same name, neither does the merged list. |
| `Ajustes.FusionarCubre` | main.ts:59-65 | Every stored name is tracked after the merge. |
| `Ajustes.FusionarDireccion` | main.ts:59-65 | Each appended entry comes from the first occurrence of its name among the stored names, and that name was not tracked before. Its direction is the flag stored at that same index, or descending when the flags list is shorter. |
| `Ajustes.OrdenarArchivosPlugin.TenerMetricaId` | main.ts:96-103 | The character loop builds exactly the identifier `MetricaId` of the name. The result contains no space. |
| `Ajustes.MetricaId` | main.ts:96-103 | The identifier is exactly as long as the trimmed name, so never longer than the name. |
| `Ajustes.MetricaIdSinEspacios` | main.ts:96-103 | The identifier is as long as the trimmed name. Each space becomes `-`, every other character stays where it was, and no space remains. |
| `Ajustes.MetricaIdIdempotente` | main.ts:96-103 | Deriving the identifier of an identifier gives it back unchanged. |
| `Ajustes.IdsColisionan` | main.ts:79 | The names `a b` and `a-b` differ but get the same command identifier. |
| `Frontmatter.EmpiezaConDelimitador` | main.ts:227 | The test holds exactly when the text has at least three characters and the first three are `-`. A shorter text never passes it. |
| `Frontmatter.SacarFrontmatter` | main.ts:226-235 | A text that does not start with `---` comes back unchanged. Otherwise the result is a suffix of the text with at least the opening `---` removed. |
| `Frontmatter.SinCierreQuedaUltimoCaracter` | main.ts:229-234 | Take a text that opens with `---`, has no closing `---` and does not end in a newline. Of such a text, only its last character is returned. |
| `Frontmatter.SinCierreEjemplo` | main.ts:229-234 | `"---\nhola"` yields `"a"`. |
| `Frontmatter.CierreSinSaltoEjemplo` | main.ts:231-234 | `"---\na: 1\n---"`, whose closing delimiter ends the text, yields `"---"`. |
| `Frontmatter.SacarFrontmatterCorregido` | main.ts:226-235 | Corrected: without an opening or closing delimiter the text is kept whole. Otherwise both delimiters are removed, and the result is empty or starts right after a line break. |
| `Frontmatter.CorregidoQuitaBloqueCompleto` | main.ts:231-234 | Corrected: the removed block holds the first closing `---`, with no line break between it and the end of the block. |
| `Frontmatter.CorregidoCoincide` | main.ts:226-235 | Take a well-formed block: a closing delimiter followed by a newline. On it, the code as written and the corrected function agree. |
| `Reordenar.DebeCambiar` | main.ts:221-224 | A swap is due exactly when the two values differ and the verdict's better note holds the higher value when ascending, or the lower when descending. |
| `Reordenar.Responder` | main.ts:208-215 | An answer keeps the length and every slot other than the two compared. The two compared slots keep the sum of their values. |
| `Reordenar.DebeCambiarSiNoEnOrden` | main.ts:221-224 | `debeCambiar` holds exactly when the values disagree with the verdict: the better one is higher when ascending, or lower when descending. Equal values never swap, and the rule never holds in both orders. |
| `Reordenar.ResponderSoloIntercambia` | main.ts:208-215 | An answer keeps the length, every path and name, and every other slot. It exchanges the two slots' values exactly when `debeCambiar` holds, and changes nothing otherwise. |
| `Reordenar.ResponderConservaValores` | main.ts:212-213 | An answer keeps the multiset of metric values: values are exchanged, never created or lost. |
| `Reordenar.ResponderDejaEnOrden` | main.ts:208-215 | After an answer, the two slots' values agree with it. |
| `Reordenar.ResponderIdempotente` | main.ts:208-215 | Giving the same answer a second time changes nothing. |
| `Reordenar.Secundario` | main.ts:242 | The secondary slot differs from the primary. For a non-negative primary it is non-negative and next to it. |
| `Reordenar.RepiteUltima` | main.ts:245-247 | As written, a draw is rejected only after a round has been shown, and only when both drawn slots belong to the previous pair. |
| `Reordenar.RepiteUltimaComoPar` | main.ts:245-247 | As written, a draw is rejected exactly when a round has been shown and the drawn pair equals the previous pair as an unordered pair. |
| `Reordenar.DebeRedibujar` | main.ts:244-248 | Corrected: with two notes or fewer, or before the first round, no draw is rejected. A rejected draw uses only slots of the previous pair. |
| `Reordenar.SecundarioAdyacente` | main.ts:241-242 | The secondary slot is in range and distinct from the primary. It is the slot just before the primary, or the one just after exactly when the primary is slot 0. |
| `Reordenar.RedibujoSinFinConDos` | main.ts:244-248 | As written, with two notes every draw repeats the last pair once one round has been shown, so the loop never ends. |
| `Reordenar.ExisteAceptable` | main.ts:240-248 | With the corrected redraw condition, every state has a primary slot that ends the loop. |
| `Reordenar.PrimerAceptado` | main.ts:240-248 | The loop stops at the first accepted draw. Every earlier draw repeated the last pair. |
| `Reordenar.Ordenar` | main.ts:253-259 | The presentation order is the round's two slots, in one order or the other. |
| `Reordenar.OrdenarIzquierda` | main.ts:253-259 | The primary goes left exactly when its value ranks strictly better under the direction. The left slot always ranks at least as well as the right. |
| `Reordenar.RespuestaSegunLado` | main.ts:204-224 | Picking the left slot never changes anything. Picking the right slot swaps exactly when the two values differ. |
| `Reordenar.ReordenarModal.constructor` | main.ts:118-133 | The modal holds the given notes, in order, in a fresh array, and no round has been shown yet. |
| `Reordenar.ReordenarModal.ConseguirArchivos` | main.ts:237-261 | The primary is the first accepted draw and the secondary is its neighbour. `ultima` becomes `[primary, secondary]`. With more than two notes the pair differs from the previous one. The pair comes back in presentation order. |
| `Reordenar.ReordenarModal.OnOpen` | main.ts:142 | Opening a round records its pair and sets the left and right slots to that pair in presentation order. |
| `Reordenar.ReordenarModal.OnClose` | main.ts:190-201 | A flush issues one write per slot of the last round, with the current value. That is exactly the shown left and right slots, or nothing before the first round. |
| `Reordenar.ReordenarModal.AplicarRespuesta` | main.ts:208-215 | The array afterwards is `Responder` of the array before: the two slots trade their values in place exactly when `debeCambiar` holds, and nothing else changes. |
| `Reordenar.ReordenarModal.EstablecerComparacion` | main.ts:204-219 | The slots become `Responder` of the old slots, with the better slot given by the side picked. It flushes exactly the two shown slots with their new values, then opens the next round. |
| `Reordenar.EjemploTresNotas` | main.ts:241-259 | Ascending, values 5, 5, 8, primary 2: B goes left and C right. Picking B leaves the values as they were. |
| `Reordenar.EjemploDosNotas` | main.ts:204-259 | Corrected redraw condition: ascending, values 5 and 9 with two notes, every draw is accepted and A goes left. Picking B as better swaps the values to 9 and 5. |

## Findings

| source | as written | input that shows it | evidently intended | confidence | as-written member | corrected member |
|---|---|---|---|---|---|---|
| main.ts:244-248 | The loop redraws while the pair equals `ultima`, whatever the number of notes. | Two notes, second round: `ultima` is `[0, 1]` or `[1, 0]`, and every draw gives the pair {0, 1}. | Skip repeat-avoidance when only one pair exists. | high; not executed | `Reordenar.RedibujoSinFinConDos` | `Reordenar.ExisteAceptable` |
| main.ts:231-234 | With no closing `---`, `indexOf` gives -1 and `slice(-1)` keeps only the last character. | `"---\nhola"` yields `"a"`. | No closing delimiter means no frontmatter: keep the text whole. | high; not executed | `Frontmatter.SinCierreEjemplo` | `Frontmatter.SacarFrontmatterCorregido` |
| main.ts:232-234 | With the closing `---` on the last line, the newline search gives -1, the `+ 1` cancels it, and the delimiter is returned. | `"---\na: 1\n---"` yields `"---"`. | An empty body. | high; not executed | `Frontmatter.CierreSinSaltoEjemplo` | `Frontmatter.SacarFrontmatterCorregido` |

`ReordenarModal.ConseguirArchivos` uses the corrected redraw condition,
`DebeRedibujar`. The condition as written is `RepiteUltima`.

## Left out

- Obsidian UI is not modelled. That covers the rendering in `onOpen` other than
  line 142 (title, CSS class, buttons, markdown rendering, `Promise.all` over
  the two renders), and `contentEl.empty()` and `component.unload()` in
  `onClose`. The whole `SampleSettingTab` (main.ts:264-371) is left out too. It
  is glue over library calls.
- Line 143 renders the note at `indiceDer` in the left button, whose click
  reports `'izq'`, and the reverse for the right button. The model's `Izq` and
  `Der` are the engine's slots `indiceIzq` and `indiceDer`, not the on-screen
  sides. Together with `RespuestaSegunLado`, this crossing means the note the
  user clicks always ends up with the higher of the two values when ascending,
  and the lower when descending. On screen that is the opposite of "ascending
  means lower values rank better".
- The vault and the metric query are not modelled: `vault.read`,
  `getAbstractFileByPath`, `processFrontMatter`, and the Dataview `pages()`
  query with its filter and its sort by value. The filter at line 125 is a
  truthiness test, so it drops notes whose value is 0 as well as notes without
  the key: a note at 0 never enters a session. The constructor takes the
  query's result, after that filter, as given. A flush is its list of
  writes, not their execution, and a write's success or failure is not
  modelled.
- The event wiring is not modelled: the keydown handler (KeyL means `'der'`,
  KeyJ means `'izq'`), command registration in `agregarMetrica` and
  `eliminarMetrica`, `onload` and `onunload`. Neither is the replacement of an
  open modal (flush, close, new modal), nor the second `onClose` that
  `close()` triggers. That second call rewrites the same values.
- `saveSettings` (main.ts:68-75) is a persistence call and is not modelled.
- `Math.random` and `Math.floor` become the draw stream `sorteos`.
  `ConseguirArchivos` requires the stream to hold an accepted draw. With three
  or more notes the real loop ends with probability 1; with two it never ends
  once a round has been shown (see Findings). `ExisteAceptable` shows that an
  accepted draw always exists under the corrected condition.
- `parseInt` on arbitrary strings is not modelled: metric values are integers.
  The source compares the parsed values at line 211 but the raw frontmatter
  values at lines 254-255, and raw values that are strings would compare
  character by character there. The model compares integers in both places.
- `ConseguirArchivos` and `OnOpen` require at least two notes. With fewer, the
  source reads a missing slot of the array and throws a TypeError. With no
  notes at all it already fails on the first slot. The code reports no
  configuration error for either case.
- The guard `if (!this.ultima) return;` at line 190 never fires, because an
  empty array is truthy. With no round shown, `OnClose` issues no writes,
  which is the same outcome.
- Strings are sequences of Unicode characters, whereas ECMAScript `length`,
  `slice` and `indexOf` count UTF-16 code units. The two differ only when a
  code-unit index falls inside a surrogate pair. One such case is the
  no-closing-delimiter path of `sacarFrontmatter` on a note that ends with a
  character outside the Basic Multilingual Plane, for example `"---\n😀"`. The
  source returns a lone low surrogate there, whereas `SacarFrontmatter`
  returns the whole character. `SinCierreQuedaUltimoCaracter`'s "last
  character" is one code unit in the source.
- Stored settings whose keys hold something other than arrays (for example
  `null`) are not modelled.
