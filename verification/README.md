# Finglish/Farsi transliteration engine, modelled in Dafny

This project models the transliteration engine of `finglish_to_farsi.py`, lines 4-38. The engine has five parts:

- **The table `char_map`**, modelled by `CharMap.Forward`; its inverse `temp_char_map` is `CharMap.Reverse`.
  - It is a Python dict display of Latin tokens to Persian text.
  - The key `'Z'` is written three times, with zal, za and zad.
  - The dict keeps the key's first position and its last value.
- **`is_emoji`**, modelled by `Classify.IsEmoji`. It asks whether some character falls in the listed code point ranges.
- **`Finglish_be_Farsi`, Latin to Persian**, modelled by `ForwardScan.ToFarsi`.
  - It sorts the keys stably by length, longest first.
  - For each key it replaces every literal occurrence, each pass working on the output of the previous ones.
- **`Farsi_be_Finglish`, Persian to Latin**, modelled by `ReverseScan.ToFinglish`.
  - It inverts the dict, so for a duplicated value the last entry wins.
  - It then replaces each Persian value by its Latin key, in the inverted dict's order.
- **`Tashkhis_va_Tarjome`, the entry point**, modelled by `Dispatch.Transliterate`.
  - Text containing any ASCII letter goes through the forward direction whole.
  - Otherwise the text is split at whitespace runs, keeping the runs.
  - Each piece that has a character in U+0622..U+06CC and no emoji-range character goes through the reverse direction.
  - The pieces are then joined.

How the model is written:

- Strings are `seq<char>`.
- A dict is an ordered sequence of (key, value) pairs. `Put` writes a key the way assignment into a Python dict does. `FromPairs` builds a dict from a display. `Invert` is the comprehension `{v: k for k, v in d.items()}`.
- `re.sub(re.escape(k), v, s)` is `Replace.ReplaceAll`: leftmost, non-overlapping, literal replacement.
- `re.split(r'(\s+)', s)` is `Segments.Split` over the explicit whitespace predicate `Classify.IsSpace`.

Each direction is proved against a simpler reference definition.

- **Forward.** The fold of replacement passes equals a single left-to-right scan (`ForwardScan.ScanWith`). At each position the scan takes a two-letter key if one starts there; otherwise it maps the one character. The two agree for this table for two reasons:
  - every two-letter key ends in `h` and none starts with it;
  - no value contains a key letter.
- **Reverse.** The fold equals a one-pass per-character substitution (`Replace.SubstituteChars`). This holds because:
  - the only two-character value, alef+kasra, starts with alef;
  - alef's own entry comes first in the inverted dict.

  So alef+kasra never survives to its own pass, and `E` is never produced.

Behaviour of the source worth noting:

- **The reverse pass is neither longest-match nor order-free.** It runs in insertion order, so alef is replaced before alef+kasra could match, and the `'E'` entry is dead in this direction.
- **`re.split` can yield empty pieces.**
  - It yields an empty first piece when the text starts with whitespace.
  - It yields an empty last piece when the text ends with whitespace.
  - The split text therefore alternates word and run strictly, beginning and ending with a word. It does not consist of maximal runs only.
- **The forward direction is a fold of whole-text passes, not a tokenizer.** That it behaves like a longest-match scan is a theorem about this particular table (`ForwardScan.FoldIsScan`), not the algorithm.
- **The last emoji range, U+24C2..U+1F251, is much wider than emoji.** Any piece containing, for example, CJK text is left unconverted.

Files, one module each: `ordered_dict.dfy`, `replace.dfy`, `key_sort.dfy`, `classify.dfy`, `char_map.dfy`, `forward.dfy`, `forward_facts.dfy`, `reverse.dfy`, `reverse_facts.dfy`, `segments.dfy`, `dispatch.dfy`.

## Model

| member | source | states |
|---|---|---|
| OrderedDict.Lookup | finglish_to_farsi.py:20 | `char_map[key]` finds a value exactly when the key is in the dict |
| OrderedDict.Put | finglish_to_farsi.py:4-12 | writing an existing key keeps its position and replaces its value; writing a new key appends it |
| OrderedDict.PutDistinct | finglish_to_farsi.py:4-12 | writing a key into a dictionary leaves every key occurring once |
| OrderedDict.FromPairsDistinct | finglish_to_farsi.py:4-12 | a dict built from a display never holds a key twice |
| OrderedDict.FromPairsHasKey | finglish_to_farsi.py:4-12 | the built dict's keys are exactly the keys written in the display |
| OrderedDict.FromPairsLastWins | finglish_to_farsi.py:4-12 | a key maps to the value of its last write in the display |
| OrderedDict.InvertHasKey | finglish_to_farsi.py:24 | a Persian value is a key of the inverted dict exactly when some entry has it as value |
| OrderedDict.InvertLastWins | finglish_to_farsi.py:24 | a value maps back to the key of the last entry holding it |
| OrderedDict.InvertSound | finglish_to_farsi.py:24 | the key an inverted lookup returns maps forward to the looked-up value |
| CharMap.ForwardIsTable36 | finglish_to_farsi.py:4-12 | the 38-pair display resolves to a 36-entry table: the 30 single letters, `Z`, then the five digraphs |
| ForwardFacts.ForwardEntry | finglish_to_farsi.py:4-12 | looking up any key of the 36-entry table in `char_map` gives that entry's value |
| CharMap.ZResolution | finglish_to_farsi.py:10 | `Z` holds the position of its first write (index 30) and the value zad of its last; zal and za are no value at all |
| CharMap.Table36Distinct | finglish_to_farsi.py:4-12 | no key occurs twice in the table |
| CharMap.Table36KeyLetters | finglish_to_farsi.py:4-12 | keys are ASCII letters: one letter up to index 30, two from 31 on |
| CharMap.Table36DigraphShape | finglish_to_farsi.py:10-11 | every two-letter key ends in `h` and none starts with it, so two digraph occurrences cannot overlap |
| CharMap.Table36Values | finglish_to_farsi.py:4-12 | values are non-empty Persian-range text; only `E` has a two-character value, alef+kasra |
| KeySort.WithKeyLengthMembers | finglish_to_farsi.py:18 | the length-n class holds exactly the table's entries with n-character keys |
| KeySort.MaxKeyLength | finglish_to_farsi.py:18 | bounds every key length and is attained by some key |
| KeySort.SortByKeyLengthDescCorrect | finglish_to_farsi.py:18 | the sort is a permutation, longest keys first, and keeps table order among keys of equal length (stability) |
| ForwardScan.ForwardOrder | finglish_to_farsi.py:18 | the visiting order is a permutation of `char_map`, non-increasing in key length, with no empty key |
| ForwardScan.ShapedOrder | finglish_to_farsi.py:18 | for the table's shape, the sorted order is the two-letter entries followed by the one-letter entries, each in table order |
| ForwardScan.ForwardShape | finglish_to_farsi.py:4-12 | the resolved table has keys of one or two ASCII letters, longest key 2, Persian-range values, no overlapping digraphs |
| ForwardScan.DigraphPassIsReplaceEach | finglish_to_farsi.py:19-20 | replacing non-overlapping two-letter keys one after another equals one left-to-right digraph scan |
| ForwardScan.ScanDecomposes | finglish_to_farsi.py:17-21 | the reference scan is a digraph scan followed by a per-character substitution of single letters |
| ForwardScan.FoldIsScan | finglish_to_farsi.py:17-21 | for any table of this shape, the longest-first fold of replace-all passes equals the single left-to-right scan |
| ForwardScan.ToFarsiIsScan | finglish_to_farsi.py:17-21 | `Finglish_be_Farsi` equals the reference scan on every input |
| Replace.ReplaceAll | finglish_to_farsi.py:20 | text without the key's first character is unchanged; every output character comes from the text or the replacement; a one-character key absent from the value is gone afterwards |
| Replace.ReplaceEach | finglish_to_farsi.py:19-20 | cumulative passes bring in no character except from some value; a single-character key that no value contains does not survive |
| Replace.ReplaceEachConcat | finglish_to_farsi.py:19-20 | running the passes of `a + b` is running those of `a` and then those of `b` on its output |
| Replace.ReplaceEachUntouched | finglish_to_farsi.py:19-20 | text in which no key's first character occurs is returned unchanged |
| Replace.ReplaceSingle | finglish_to_farsi.py:20 | replacing all occurrences of a single-character key is the per-character substitution by that one entry |
| Replace.ReplaceEachCharwise | finglish_to_farsi.py:25-26 | when no value reintroduces a key and every longer key starts with an already-removed character, the fold of passes is one per-character substitution |
| Replace.SubstituteConcat | finglish_to_farsi.py:25-26 | per-character substitution distributes over concatenation |
| Replace.SubstituteFrom | finglish_to_farsi.py:25-26 | every character of a substitution's output was in the input or in some value |
| ForwardFacts.ScanSplit | finglish_to_farsi.py:17-21 | the scan of `a + b` is the scans side by side when `b` starts with a character in no key |
| ForwardFacts.ToFarsiPassThrough | finglish_to_farsi.py:17-21 | text without ASCII letters comes out of the forward direction unchanged |
| ForwardFacts.ToFarsiUnmapped | finglish_to_farsi.py:17-21 | text none of whose characters occurs in any key, ASCII letters such as `B` included, is returned unchanged |
| ForwardFacts.ToFarsiBarrierUnmapped | finglish_to_farsi.py:17-21 | a character in no key is copied and splits the text into parts converted independently |
| ForwardFacts.ForwardKeyChars | finglish_to_farsi.py:4-12 | a character occurs in some key exactly when it is one of the 31 one-letter keys |
| ForwardFacts.UnmappedCapital | finglish_to_farsi.py:4-12 | the capitals other than `A E S T Z` occur in no key |
| ForwardFacts.CapitalBExample | finglish_to_farsi.py:17-21 | `B` comes out as `B` |
| ForwardFacts.ToFarsiBarrier | finglish_to_farsi.py:17-21 | a non-letter is copied and splits the text into parts converted independently |
| ForwardFacts.ToFarsiDigraph | finglish_to_farsi.py:18-20 | at the start of the text, each of `sh ch zh kh gh` becomes its one Persian letter, whatever follows |
| ForwardFacts.ToFarsiLetter | finglish_to_farsi.py:18-20 | a single letter that does not start a two-letter key with the next character becomes its table value |
| ForwardFacts.LetterBeforeH | finglish_to_farsi.py:4-12 | `a` followed by `h` starts no two-letter key, so a letter before `h` can still be converted alone |
| ForwardFacts.ToFarsiOutput | finglish_to_farsi.py:18-20 | the output has only input characters and Persian-range characters, and no single-letter key survives |
| ForwardFacts.ToFarsiEmpty | finglish_to_farsi.py:17-21 | empty text stays empty |
| ForwardFacts.ToFarsiKey | finglish_to_farsi.py:17-21 | a key on its own converts to exactly its value |
| ForwardFacts.SalamExample | finglish_to_farsi.py:17-21 | `salam` becomes sin alef lam alef mim |
| ForwardFacts.ShomaExample | finglish_to_farsi.py:17-21 | `shoma` becomes shin damma mim alef: `sh` is taken before `s` and `h` |
| ForwardFacts.ShExample | finglish_to_farsi.py:10 | `sh` becomes shin, not sin followed by he |
| ForwardFacts.ShShExample | finglish_to_farsi.py:17-21 | `shsh` becomes two shins |
| ForwardFacts.ZExample | finglish_to_farsi.py:10 | `Z` becomes zad |
| ForwardFacts.HiExample | finglish_to_farsi.py:17-21 | `hi` becomes he and Farsi yeh |
| ForwardFacts.UExample | finglish_to_farsi.py:9 | `u` becomes vav |
| ReverseScan.InvertLongKeysDead | finglish_to_farsi.py:24-26 | in the inverse of a table whose multi-character values start with its first value, each longer key starts with a character an earlier pass removed |
| ReverseScan.ReverseShape | finglish_to_farsi.py:24 | the inverted dict maps non-empty Persian-range keys to ASCII-letter values, and its longer keys are dead |
| ReverseScan.ToFinglishCharwise | finglish_to_farsi.py:23-27 | `Farsi_be_Finglish` is the per-character substitution by the inverted dict |
| ReverseScan.ToFinglishConcat | finglish_to_farsi.py:23-27 | the reverse direction distributes over concatenation |
| ReverseScan.NotPersianNoEntry | finglish_to_farsi.py:24 | a character outside the Persian range is no key of the inverse |
| ReverseScan.ToFinglishOutput | finglish_to_farsi.py:25-26 | output characters are input characters or ASCII letters, and no single-character key of the inverse survives |
| ReverseScan.ToFinglishKeepsOthers | finglish_to_farsi.py:25-26 | a character that is neither Persian-range nor an ASCII letter is in the output exactly when it is in the input |
| ReverseScan.ToFinglishPassThrough | finglish_to_farsi.py:23-27 | text without Persian-range characters is unchanged |
| ReverseScan.ToFinglishNeverEmitsE | finglish_to_farsi.py:24-26 | `E` is in the output exactly when it is in the input: alef+kasra is never turned into `E` |
| ReverseScan.ToFinglishNonEmpty | finglish_to_farsi.py:23-27 | the output is empty exactly when the input is |
| ReverseScan.ToFinglishNoSpace | finglish_to_farsi.py:23-27 | text without whitespace stays without whitespace |
| ReverseFacts.ReverseHasKey | finglish_to_farsi.py:24 | a value is a key of the inverse exactly when some table entry has it |
| ReverseFacts.ReverseLastWins | finglish_to_farsi.py:24 | an entry with no later entry of the same value is what its value maps back to |
| ReverseFacts.ReverseSound | finglish_to_farsi.py:24 | the Latin key an inverse lookup gives maps forward to the looked-up Persian text |
| ReverseFacts.ReverseVav | finglish_to_farsi.py:9 | vav goes back to `w`, the last of `u v w` |
| ReverseFacts.ReverseYeh | finglish_to_farsi.py:9 | Farsi yeh goes back to `y`, not `i` |
| ReverseFacts.ReverseSe | finglish_to_farsi.py:8 | se goes back to `S`, not `c` |
| ReverseFacts.ReverseKhe | finglish_to_farsi.py:11 | khe goes back to `kh`, not `x` |
| ReverseFacts.ReverseQaf | finglish_to_farsi.py:11 | qaf goes back to `gh`, not `q` |
| ReverseFacts.ReverseDropsZalZa | finglish_to_farsi.py:10 | zal and za have no reverse entry |
| ReverseFacts.ReverseAlef | finglish_to_farsi.py:5 | alef goes back to `a` |
| ReverseFacts.ReverseKasra | finglish_to_farsi.py:5 | kasra alone has no reverse entry |
| ReverseFacts.KasraExample | finglish_to_farsi.py:24-26 | alef+kasra comes back as `a` followed by kasra, not `E` |
| ReverseFacts.ToFinglishChar | finglish_to_farsi.py:25-26 | one character becomes its image under the inverse |
| ReverseFacts.CharRoundTrip | finglish_to_farsi.py:17-27 | a Persian letter with a reverse entry, taken to Latin and back, is itself |
| ReverseFacts.SalamBack | finglish_to_farsi.py:23-27 | Persian salam becomes `salam` |
| ReverseFacts.SinHeMerges | finglish_to_farsi.py:17-27 | sin followed by he becomes `sh`, which comes back as shin: Persian to Latin to Persian is not the identity |
| ReverseFacts.URoundTrip | finglish_to_farsi.py:9 | `u` goes to vav and comes back as `w`: Latin to Persian to Latin is not the identity |
| Classify.PersianTextIsNotEmoji | finglish_to_farsi.py:15 | text made only of Persian-range characters is never taken for emoji |
| Classify.SpaceIsNeitherLetterNorPersian | finglish_to_farsi.py:33-34 | whitespace is neither an ASCII letter nor in the Persian range |
| Classify.PersianTextIsPlain | finglish_to_farsi.py:34 | Persian-range text has no whitespace and no ASCII letter |
| Classify.HasAsciiLetterConcat | finglish_to_farsi.py:30 | a concatenation has an ASCII letter exactly when one of its parts does |
| Segments.WordLength | finglish_to_farsi.py:33 | the leading non-whitespace run ends at the first whitespace character or at the end |
| Segments.RunLength | finglish_to_farsi.py:33 | the leading whitespace run ends at the first non-whitespace character or at the end |
| Segments.SplitJoin | finglish_to_farsi.py:33 | joining the pieces of a split gives back the text |
| Segments.SplitWellFormed | finglish_to_farsi.py:33 | pieces alternate word and whitespace run, starting and ending with a word (possibly empty at the ends only); runs are non-empty |
| Segments.SplitStartsWithWord | finglish_to_farsi.py:33 | text that starts with a non-whitespace character has a non-empty first piece |
| Segments.SplitNoSpace | finglish_to_farsi.py:33 | text without whitespace is a single piece |
| Segments.JoinSplit | finglish_to_farsi.py:33 | every well-formed piece sequence is the split of its join, so the split is determined by that shape |
| Dispatch.DetectionRule | finglish_to_farsi.py:30-31 | with any ASCII letter the result is the forward direction, and every other character, Persian and emoji included, is kept |
| Dispatch.ConvertPersian | finglish_to_farsi.py:34-35 | a non-empty piece of Persian-range characters is reverse-converted |
| Dispatch.ConvertSpace | finglish_to_farsi.py:36-37 | a whitespace run is kept |
| Dispatch.ConvertSegmentFacts | finglish_to_farsi.py:34-37 | whitespace, emoji-bearing pieces and pieces without Persian letters are kept; conversion keeps pieces free of whitespace and non-empty |
| Dispatch.ConvertWellFormed | finglish_to_farsi.py:33-37 | converting keeps the alternating shape of the pieces and each whitespace run as it was |
| Dispatch.LayoutPreserved | finglish_to_farsi.py:32-38 | without ASCII letters, the split of the result is the converted split of the input: same number of pieces, same whitespace runs in the same order |
| Dispatch.EmptyInput | finglish_to_farsi.py:29-38 | empty text gives empty text |
| Dispatch.JoinMember | finglish_to_farsi.py:38 | a character is in the join exactly when it is in some piece |
| Dispatch.DispatchNeverEmitsE | finglish_to_farsi.py:29-38 | no input produces `E`: the forward branch replaces every `E`, the reverse branch never emits one |
| Dispatch.ForwardNeverEmitsE | finglish_to_farsi.py:17-21 | the forward direction's output never contains `E` |
| Dispatch.TwoWords | finglish_to_farsi.py:32-38 | two Persian words around whitespace give the two converted words around the same whitespace |
| Dispatch.OneWord | finglish_to_farsi.py:33-37 | text without whitespace or ASCII letters is a single piece, converted by the per-piece rule |
| Dispatch.EmojiWordKept | finglish_to_farsi.py:34-37 | a word carrying an emoji is kept whole, its Persian letters included |
| Dispatch.PersianWord | finglish_to_farsi.py:34-35 | a word of Persian letters alone is reverse-converted |
| Dispatch.SalamDispatch | finglish_to_farsi.py:29-38 | Persian salam gives `salam` |
| Dispatch.SalamGrinKept | finglish_to_farsi.py:34-37 | Persian salam with a grinning face glued to it is returned unchanged |
| Dispatch.SalamSalam | finglish_to_farsi.py:32-38 | two Persian salams around two spaces give `salam  salam` |
| Dispatch.LatinThenOther | finglish_to_farsi.py:30-31 | Latin text, a non-letter, and letter-free text: the first part goes forward and the rest is kept |
| Dispatch.HiGrin | finglish_to_farsi.py:30-31 | `hi` followed by a space and an emoji gives he, yeh, the space and the emoji |

## Left out

- `translate_terminal`, `translate_gui` and the `argparse` start-up (finglish_to_farsi.py:40-125) are console, tkinter and clipboard front ends. They only call the entry point, and they are not part of this model.
- Python's regular expression engine is not modelled as such. Only the four patterns the engine uses are modelled: a literal key, `[a-zA-Z]`, `[آ-ی]` and `(\s+)`. Each is a pure function.
- Classify.IsSpace is fixed to the characters `\s` matches in a Python 3 `str` pattern. Other Python versions or flags are not modelled.
- Replace.ReplaceAll requires a non-empty key. `re.sub` with an empty pattern inserts at every position, but every key of `char_map` is non-empty.
- Replace.ReplaceAll treats the replacement as literal text. `re.sub` would interpret backslashes in it, but no value of `char_map` contains one.
- KeySort.SortByKeyLengthDesc sorts the (key, value) entries rather than the keys followed by a `char_map[key]` lookup. The two agree because keys are distinct (`OrderedDict.FromPairsDistinct`).
- Classify.InEmojiRange works on Unicode scalar values. A Python `str` can also hold lone surrogates, which Dafny strings cannot, so those are not modelled.
- Byte-level encoding and decoding of input and output (UTF-8) belong to the front ends and are not modelled.
- The model relies on Python dicts keeping insertion order, which the language guarantees from version 3.7 on. Both the longest-first visiting order among keys of equal length and the reverse direction's order depend on it. In the reverse direction, alef is replaced before alef+kasra, which is why the `E` entry is dead.
