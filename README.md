# Morphology engine and name autocompleter, modelled in Dafny

This project models two small C# components.

**The sentence morpher** (`Mophology/SentenceMorpher.cs`) rewrites a sentence word by word. A word may carry an attribute list, `WORD{ATTR, ATTR}`. Such a word becomes the first dictionary form of that word that has every requested attribute. The model covers these parts:

- **Block parser** (`blocks.dfy`): cuts the dictionary's lines into blocks, one block per lemma.
- **Lemmas and forms** (`lexicon.dfy`):
  - `Lemm` keeps its raw block and parses it into forms on first use.
  - `Form` is a word plus a set of attribute codes.
- **Attribute interner** (`grammema.dfy`): the static `Grammema` class maps lower-cased attribute names to 16-bit codes, using a wrapping `ushort` counter.
- **Tokenizer** (`tokenizer.dfy`): `SplitToWords` is brace-depth aware.
- **Engine** (`morpher.dfy`):
  - `Create` builds the hash-bucketed index of lemmas.
  - `MorphWord` and `Morph` resolve words against it.

**The autocompleter** (`AutoComplete/AutoComplete.cs`, modelled in `autocomplete.dfy`):

- It keeps a sorted set of `"Surname Name Patronymic"` strings.
- `AddToSearch` fills the set in bulk.
- `Search` answers a prefix query as the range from the prefix up to `newPrefix`. `newPrefix` is the prefix with its last code unit incremented.

`wrappers.dfy` holds `Option` and `Result`. `text.dfy` holds the .NET string helpers the code calls: `char.IsWhiteSpace`, `string.IsNullOrWhiteSpace`, `Split` over separator characters and `Join` with a one-character separator. Runtime behaviour the code cannot see is passed in as a `Runtime` value and left uninterpreted:

- `char.IsLetter`;
- the culture's `ToUpper` and `ToLower`;
- `string.GetHashCode`.

**How the engine is specified.** Every stateful method is proved against a reference function defined on the dictionary text. `Blocks` gives the blocks of a dictionary. `Tokens` gives the tokens of a sentence. `MorphWordSpec` and `MorphSpec` give the rewrite of a word and of a sentence. Separate lemmas then prove properties of those reference functions:

- bucketed lookup equals a linear scan over all lemmas, whatever the hash function;
- a word without braces passes through unchanged;
- the joined result splits back into the rewritten words;
- and the other properties listed in the table below.

**The interner's capacity.** Codes are matched instead of attribute names, and the engine gives the reference answer only while the codes are injective. That holds while at most 2^16 distinct names have been interned, so it is the hypothesis of the `Morph` and `MorphWord` contracts. Both contracts also bound what a call adds to the interner: names of the dictionary's lines and names the words ask for. So a caller can discharge the hypothesis by counting those names.

**The block aliasing in `Create`.**

- **What the code does:** `Create` adds its `block` list object to `blocks`, then clears that same object (Mophology/SentenceMorpher.cs:34-36). Under reference semantics, every stored block is therefore the one shared list.
- **What was meant:** the comment "And add new" shows that a fresh list per block was intended.
- **What the model does:** blocks are values here (`seq<string>`), which gives the intended behaviour. Each lemma gets its own block.

**The `ushort` counter.** The source lets the interner's counter wrap silently after 65536 names, and the model does the same. A design that treats this as a capacity limit would refuse the 65537th name instead; the model follows the code.

## Model

| member | source | states |
|---|---|---|
| Text.Split | Mophology/SentenceMorpher.cs:149 | `Split` on a set of separators: at least one piece; the first piece is the text before the first separator; there is exactly one piece iff the text holds no separator; no piece holds a separator |
| Text.JoinSplit | Mophology/SentenceMorpher.cs:98 | joining the pieces of a split on one separator gives the original string back |
| Text.SplitJoin | Mophology/SentenceMorpher.cs:98 | splitting a join of separator-free pieces gives the pieces back |
| Text.JoinShape | Mophology/SentenceMorpher.cs:98 | `string.Join` on one separator: the result's length is the parts' total length plus one less than their number; it starts with the first part; the separator follows the first part when there is a second one |
| Text.Join | AutoComplete/AutoComplete.cs:87 | reference definition of `string.Join(char, parts)`; its contract is stated by `JoinShape`, `JoinSplit` and `SplitJoin` |
| Text.IsBlank | Mophology/SentenceMorpher.cs:137 | reference definition of `string.IsNullOrWhiteSpace` on a non-null string: every character is `char.IsWhiteSpace`; `NonBlank` filters on it |
| Text.NonBlank | Mophology/SentenceMorpher.cs:137-138 | the pieces kept by the `IsNullOrWhiteSpace` filter are all non-blank, all come from the input, and every non-blank input piece is kept |
| Grammema.CodesSubsetIff | Mophology/SentenceMorpher.cs:311-318 | while codes are injective, one set of codes includes another exactly when the attribute names do: matching on codes is matching on names |
| Grammema.CodesSubmap | Mophology/SentenceMorpher.cs:314-315 | a table that only grew gives the same codes to the names it had |
| Grammema.FreshEntry | Mophology/SentenceMorpher.cs:317 | entering an unseen name under the counter's value grows the table by one, and keeps the codes injective and below the table size while the table fits 2^16 |
| Grammema.Interner.constructor | Mophology/SentenceMorpher.cs:303-304 | the interner starts with an empty table and the counter at 0 |
| Grammema.Interner.GetIndex | Mophology/SentenceMorpher.cs:311-318 | names equal after lower-casing get the same code; a name seen before gets its old code and leaves the state unchanged; an unseen name gets the counter's value and the counter grows by one modulo 2^16; old entries never change; the table gains exactly the lower-cased name |
| Grammema.CodedAsCodes | Mophology/SentenceMorpher.cs:154 | codes interned name by name form exactly the set of codes of the names' lower-cased keys |
| Grammema.InternAll | Mophology/SentenceMorpher.cs:154 | `Select(Grammema.GetIndex)`: the k-th code is the table's code for the k-th name, lower-cased; the table gains exactly the lower-cased names and nothing else |
| BlockParser.BlocksWellFormed | Mophology/SentenceMorpher.cs:28-43 | every block is non-empty, each of its lines starts with a letter, and each is a line of the dictionary |
| BlockParser.BlocksFlatten | Mophology/SentenceMorpher.cs:28-43 | the blocks, concatenated in order, are the dictionary with its delimiter lines removed |
| BlockParser.BlocksSplit | Mophology/SentenceMorpher.cs:31-37 | a delimiter line cuts the dictionary into two independent halves, so a run of delimiters never yields an empty block |
| BlockParser.BlocksOfRun | Mophology/SentenceMorpher.cs:41-43 | a non-empty run of content lines is exactly one block |
| BlockParser.SplitBlocks | Mophology/SentenceMorpher.cs:28-43 | the line loop returns exactly the blocks of the dictionary |
| Lexicon.FormWord | Mophology/SentenceMorpher.cs:274 | a form's word is the text before the first tab: it holds no tab, and a tab follows it in the line |
| Lexicon.LineShape | Mophology/SentenceMorpher.cs:274-276 | a line is its word, the tab, then its attribute text |
| Lexicon.LemmaWord | Mophology/SentenceMorpher.cs:202 | reference definition of `Lemm.Word`: the upper-cased text before the first tab of the block's first line |
| Lexicon.LemmaWordMatches | Mophology/SentenceMorpher.cs:202 | when upper-casing is idempotent, the normal form is already upper case, and a word matches it ignoring case exactly when it matches the first line's word |
| Lexicon.FirstMatch | Mophology/SentenceMorpher.cs:227-234 | the position of the first set that includes the query, or the length if none does: no earlier set includes it |
| Lexicon.FirstSuperset | Mophology/SentenceMorpher.cs:227-235 | no answer iff no form has every requested code; otherwise the word of the first such form in order |
| Lexicon.FirstSupersetIsFirstForm | Mophology/SentenceMorpher.cs:224-234 | with injective codes, searching the parsed forms by codes answers what searching the block's lines by lower-cased attribute names answers |
| Lexicon.FormsOfSubmap | Mophology/SentenceMorpher.cs:253 | forms parsed against a table stay the same after the table grows |
| Lexicon.NewForm | Mophology/SentenceMorpher.cs:271-282 | `Form(line)`: the word before the tab; the codes of the attribute pieces after it, or none when that text is blank; the interner gains exactly the line's lower-cased attribute names |
| Lexicon.NewForms | Mophology/SentenceMorpher.cs:253 | the forms of the block's lines, one per line and in order; the interner gains exactly the names of the block's lines |
| Lexicon.Lemm.constructor | Mophology/SentenceMorpher.cs:196-203 | `Word` is the upper-cased text before the first tab of the first line; the raw block is kept; the lemma is not yet initialised |
| Lexicon.Lemm.ValidSubmap | Mophology/SentenceMorpher.cs:249-258 | a lemma's parsed forms remain correct while the shared interner grows |
| Lexicon.Lemm.HashCode | Mophology/SentenceMorpher.cs:238-242 | `GetHashCode`: the hash of the normal form; see `HashFindsWord` |
| Lexicon.Lemm.HashFindsWord | Mophology/SentenceMorpher.cs:159 | when upper-casing is idempotent, a word that equals the normal form ignoring case, once upper-cased, hashes to the lemma's hash, so the lookup reaches the lemma's bucket |
| Lexicon.Lemm.EnsureInitialized | Mophology/SentenceMorpher.cs:249-258 | the first call sets the forms to the parse of every block line in order, sets `initialized`, releases the block, and adds exactly the block's names to the interner; later calls change nothing |
| Lexicon.Lemm.Materialize | Mophology/SentenceMorpher.cs:253-257 | the body of the first `EnsureInitialized` call: the same forms, flag, block and interner growth |
| Lexicon.Lemm.TryGetForm | Mophology/SentenceMorpher.cs:214-236 | initialises the lemma first, which adds exactly the block's names to the interner the first time and nothing later; no answer when the word is not the normal form ignoring case, otherwise the first form whose codes include every requested code; `textForm` is empty when nothing is found |
| Lexicon.ScanForms | Mophology/SentenceMorpher.cs:227-235 | the early-return loop gives the first form whose codes include the query |
| Tokenizer.BoundariesBelow | Mophology/SentenceMorpher.cs:111-128 | the recorded positions are ascending, each is a space or newline at brace depth 0, and every such position is recorded |
| Tokenizer.Cuts | Mophology/SentenceMorpher.cs:129 | the cut list is ascending, within the sentence, and ends at the sentence's length |
| Tokenizer.PieceAt | Mophology/SentenceMorpher.cs:132-136 | the k-th piece is the text from just after the previous cut up to the k-th cut |
| Tokenizer.PieceHasNoBoundary | Mophology/SentenceMorpher.cs:111-136 | no piece holds a space or newline at brace depth 0 |
| Tokenizer.NewlineLikeSpace | Mophology/SentenceMorpher.cs:122-125 | turning a depth-0 newline into a space does not change the tokens |
| Tokenizer.WordEnds | Mophology/SentenceMorpher.cs:108-129 | the first loop ends with every word end, in order, followed by the sentence's length |
| Tokenizer.CutPieces | Mophology/SentenceMorpher.cs:131-139 | the second loop gives the non-blank pieces between consecutive cuts, in order |
| Tokenizer.SplitToWords | Mophology/SentenceMorpher.cs:106-140 | the tokens are the sentence's non-blank pieces in order of occurrence, so the same sentence always gives the same tokens |
| Morpher.BlocksOfParsable | Mophology/SentenceMorpher.cs:202 | in a dictionary whose content lines all hold a tab, every block can become a lemma |
| Morpher.ScanFirst | Mophology/SentenceMorpher.cs:161-165 | scanning the lemmas in order answers nothing iff no lemma answers; otherwise it gives the answer of the first lemma that has one |
| Morpher.Bucket | Mophology/SentenceMorpher.cs:159-161 | a hash bucket holds only blocks of the dictionary, each loadable as a lemma |
| Morpher.LookupIsScan | Mophology/SentenceMorpher.cs:159-165 | for any hash function, provided upper-casing is idempotent, looking in the bucket of the word's upper-cased hash answers what scanning every lemma in dictionary order answers |
| Morpher.LookupSound | Mophology/SentenceMorpher.cs:159-165 | a found form belongs to a lemma whose normal form is the word ignoring case, and it has every requested attribute |
| Morpher.MorphWordPlain | Mophology/SentenceMorpher.cs:149-152 | a token without braces is returned unchanged |
| Morpher.MorphWordEmptyBraces | Mophology/SentenceMorpher.cs:154-157 | a token whose attribute list is empty becomes its text before the brace |
| Morpher.MorphWordSound | Mophology/SentenceMorpher.cs:149-168 | a token with braces becomes either its text before the first brace or a form, with every requested attribute, of a lemma whose normal form is the word |
| Morpher.MorphWordOneAttr | Mophology/SentenceMorpher.cs:147-168 | a word with one attribute, `word{attr}` (for instance `KOT{dat}`), becomes the first form with that attribute of a lemma whose normal form is the word, or stays the bare word when there is none |
| Morpher.MorphWordSpec | Mophology/SentenceMorpher.cs:147-169 | reference definition of `MorphWord` on the dictionary text; its properties are those of `MorphWordPlain`, `MorphWordEmptyBraces`, `MorphWordOneAttr`, `MorphWordSound` and `LookupIsScan` |
| Morpher.MorphWordsAt | Mophology/SentenceMorpher.cs:95-96 | the k-th rewritten word is the rewrite of the k-th token |
| Morpher.MorphSplitsIntoWords | Mophology/SentenceMorpher.cs:98 | when the rewritten words hold no space, splitting the result on spaces gives them back: single spaces between words, none around them |
| Morpher.MorphSpec | Mophology/SentenceMorpher.cs:91-99 | reference definition of `Morph`: the rewrites of the sentence's tokens joined by single spaces; see `MorphWordsAt` and `MorphSplitsIntoWords` |
| Morpher.AskLemm | Mophology/SentenceMorpher.cs:163 | one `TryGetForm` call: while the codes are injective, the lemma's answer on its dictionary text; what the call adds to the interner lies within the names of the lemma's block |
| Morpher.FitsCodes | Mophology/SentenceMorpher.cs:317 | an interner whose names all lie within a set of at most 2^16 names has at most 2^16 entries, so the codes are still injective |
| Morpher.InBucket | Mophology/SentenceMorpher.cs:49-53 | a bucket holds only lemmas with that hash |
| Morpher.InBucketAscending | Mophology/SentenceMorpher.cs:62 | a bucket keeps the lemmas in ascending index order |
| Morpher.IndexedSnoc | Mophology/SentenceMorpher.cs:47-53 | filing a new lemma after the others in its hash's bucket, or in a new bucket, keeps every bucket equal to the lemmas of its hash in order, with every lemma filed |
| Morpher.IndexedMissing | Mophology/SentenceMorpher.cs:160 | a hash with no bucket belongs to no lemma |
| Morpher.BucketLines | Mophology/SentenceMorpher.cs:159-161 | the lemma objects of a bucket hold exactly that bucket's blocks |
| Morpher.SentenceMorpher.constructor | Mophology/SentenceMorpher.cs:73-76 | the engine keeps the lemma table it is given |
| Morpher.SentenceMorpher.FileLemms | Mophology/SentenceMorpher.cs:45-54 | lemma k is made from block k with index k; every bucket holds exactly the lemmas of its hash, in index order; no lemma is dropped |
| Morpher.SentenceMorpher.Create | Mophology/SentenceMorpher.cs:17-57 | builds an engine whose lemmas are the dictionary's blocks, indexed by hash |
| Morpher.SentenceMorpher.BucketsInOrder | Mophology/SentenceMorpher.cs:62 | every bucket lists its lemmas in ascending index order |
| Morpher.SentenceMorpher.Consult | Mophology/SentenceMorpher.cs:163 | while the codes are injective, one `TryGetForm` call returns the lemma's answer on the dictionary text; the interner only gains names of the dictionary |
| Morpher.SentenceMorpher.ScanBucket | Mophology/SentenceMorpher.cs:161-165 | the bucket loop returns the first answer of the bucket's lemmas, in order; the interner only gains names of the dictionary |
| Morpher.SentenceMorpher.FindForm | Mophology/SentenceMorpher.cs:159-165 | the hash lookup answers what the text-level lookup answers, including when there is no bucket; the interner only gains names of the dictionary |
| Morpher.SentenceMorpher.MorphWord | Mophology/SentenceMorpher.cs:147-169 | the interner only gains names of the dictionary and names the token asks for; when those, with the names already interned, number at most 2^16, the result is the text-level rewrite of the token: the text before the first brace when there is no brace, no attribute name or no match, otherwise the first matching form |
| Morpher.SentenceMorpher.InternRequested | Mophology/SentenceMorpher.cs:154 | the codes of the requested names, in order; the interner gains exactly those names, lower-cased |
| Morpher.SentenceMorpher.MorphAttributed | Mophology/SentenceMorpher.cs:154-168 | for a token with a brace: the interner only gains dictionary and requested names, and while the codes are injective the result is the text-level rewrite |
| Morpher.SentenceMorpher.MorphTokens | Mophology/SentenceMorpher.cs:93-96 | every token is rewritten, in order; the interner only gains dictionary names and names the tokens ask for, and the rewrite is the text-level one when those fit 2^16 |
| Morpher.SentenceMorpher.Morph | Mophology/SentenceMorpher.cs:91-99 | the interner only gains dictionary names and names the sentence asks for; when those, with the names already interned, number at most 2^16, the result is the rewritten tokens of the sentence, joined by single spaces |
| AutoComplete.Less | AutoComplete/AutoComplete.cs:25 | reference definition of the set's order, code unit by code unit; `LessIsOrdinal` characterises it |
| AutoComplete.LessIsOrdinal | AutoComplete/AutoComplete.cs:117 | one string sorts below another exactly when it is a proper prefix of it, or when at the first code unit where they differ its code unit is the smaller |
| AutoComplete.LessTransitive | AutoComplete/AutoComplete.cs:25 | ordinal order is transitive |
| AutoComplete.LessTotal | AutoComplete/AutoComplete.cs:25 | ordinal order is total: two strings are equal or ordered one way or the other |
| AutoComplete.LessAsymmetric | AutoComplete/AutoComplete.cs:25 | no two strings are each below the other |
| AutoComplete.Successor | AutoComplete/AutoComplete.cs:113 | `newPrefix` has the prefix's length and agrees with it except in the last code unit |
| AutoComplete.RangeIsPrefix | AutoComplete/AutoComplete.cs:113-119 | if the prefix's last code unit is not U+FFFF, a string lies in the range from the prefix up to `newPrefix` exactly when it starts with the prefix |
| AutoComplete.SuccessorWraps | AutoComplete/AutoComplete.cs:113-114 | for a prefix ending in U+FFFF, `newPrefix` sorts below the prefix |
| AutoComplete.Insert | AutoComplete/AutoComplete.cs:55-57 | adding to the sorted set keeps it strictly ascending and gives the old elements plus the new one, without duplicates |
| AutoComplete.View | AutoComplete/AutoComplete.cs:117 | `GetViewBetween`: exactly the elements between the two bounds, both included |
| AutoComplete.Without | AutoComplete/AutoComplete.cs:118 | `Except`: exactly the elements other than the excluded one |
| AutoComplete.ViewSorted | AutoComplete/AutoComplete.cs:117 | a view of a sorted set is sorted |
| AutoComplete.WithoutSorted | AutoComplete/AutoComplete.cs:118 | removing an element keeps the sequence sorted |
| AutoComplete.RangeIsWithPrefix | AutoComplete/AutoComplete.cs:113-119 | the range with `newPrefix` removed is the stored strings that start with the prefix, in the same order |
| AutoComplete.IsNullOrWhiteSpace | AutoComplete/AutoComplete.cs:74-81 | reference definition of `string.IsNullOrWhiteSpace`: null, or only white space; `TrimShape` shows it holds exactly when trimming leaves nothing |
| AutoComplete.TrimStart | AutoComplete/AutoComplete.cs:75 | the leading half of `Trim()`: a suffix of the text that does not start with white space, all of the cut-off part being white space |
| AutoComplete.TrimEnd | AutoComplete/AutoComplete.cs:75 | the trailing half of `Trim()`: a prefix of the text that does not end with white space, all of the cut-off part being white space |
| AutoComplete.TrimShape | AutoComplete/AutoComplete.cs:74-81 | `Trim()` gives a stretch of the text with only white space before and after it; it is empty exactly when the text is blank, and otherwise neither starts nor ends with white space |
| AutoComplete.FilledShape | AutoComplete/AutoComplete.cs:74-81 | a filled-in field contributes one tidy item, and an empty or null field contributes none |
| AutoComplete.FullNameText | AutoComplete/AutoComplete.cs:70-88 | reference definition of `ToString(FullName)`; `FullNameTextShape` and `FullNameTextFields` state its properties |
| AutoComplete.FullNameTextShape | AutoComplete/AutoComplete.cs:70-88 | a name fails with `ArgumentException` exactly when all three fields are null or white space; otherwise its text neither starts nor ends with white space |
| AutoComplete.JoinEnds | AutoComplete/AutoComplete.cs:87 | joining tidy items with spaces gives a tidy text |
| AutoComplete.FullNameTextFields | AutoComplete/AutoComplete.cs:72-87 | with all three fields filled in and free of inner spaces, splitting the text on spaces gives the trimmed surname, name and patronymic, in that order |
| AutoComplete.FirstUnnamedIsFirst | AutoComplete/AutoComplete.cs:55-57 | every name before the first failing one has a text, and the first failing one has none |
| AutoComplete.FirstUnnamedAt | AutoComplete/AutoComplete.cs:55-57 | a position with only successful names before it and a failing name at it is the first failing position |
| AutoComplete.TextsMembers | AutoComplete/AutoComplete.cs:55-57 | a string is among the added texts exactly when some name in the list has it as its text |
| AutoComplete.AutoCompleter.constructor | AutoComplete/AutoComplete.cs:25-35 | the set starts empty and `RequestLengthLimit` is 100 |
| AutoComplete.AutoCompleter.ToString | AutoComplete/AutoComplete.cs:70-88 | the item-collecting method returns the text-level `FullNameText` |
| AutoComplete.AutoCompleter.AddToSearch | AutoComplete/AutoComplete.cs:47-58 | a null list gives `ArgumentNullException` and an empty list gives `ArgumentException`, both with the set unchanged; otherwise the set becomes the old set plus the texts of the names before the first failing name, and the call fails exactly when some name fails |
| AutoComplete.AutoCompleter.Search | AutoComplete/AutoComplete.cs:101-120 | rejects a null prefix, a blank one and one longer than the limit; rejects a prefix whose `newPrefix` wraps below it; otherwise answers exactly the stored strings from the prefix up to, but not including, `newPrefix` |
| AutoComplete.AutoCompleter.SearchSorted | AutoComplete/AutoComplete.cs:116-119 | the answer is strictly ascending, so it has no duplicates |
| AutoComplete.AutoCompleter.SearchFindsPrefixes | AutoComplete/AutoComplete.cs:113-119 | a successful search answers exactly the stored strings that start with the prefix, and never `newPrefix` |
| AutoComplete.AutoCompleter.SearchByPrefix | AutoComplete/AutoComplete.cs:101-119 | corrected search: the same rejections, and for every accepted prefix, exactly the stored strings that start with it |
| AutoComplete.AutoCompleter.SearchByPrefixAgrees | AutoComplete/AutoComplete.cs:113-119 | the search as written and the corrected search agree on every prefix not ending in U+FFFF |
| AutoComplete.AutoCompleter.SearchOverflow | AutoComplete/AutoComplete.cs:113-114 | an accepted prefix ending in U+FFFF is rejected by the search as written, while the corrected search answers the strings that start with it |
| AutoComplete.SortedUnique | AutoComplete/AutoComplete.cs:25 | a strictly sorted sequence is determined by its elements, so the model's sorted set has one representation |
| AutoComplete.AutoCompleter.SearchDemo | AutoComplete/Program.cs:12-22 | for a set holding exactly the five demo names, `Search("Анна")` answers just "Анна" and leaves out "Аннб", the prefix's successor |

## Left out

- `string.GetHashCode`, `char.IsLetter` and the culture's `ToUpper`/`ToLower` are uninterpreted fields of `Runtime`: the .NET hash is randomised per process and the case maps depend on the culture. The bucket theorem (`LookupIsScan`) assumes only that upper-casing is idempotent.
- `StringComparison.OrdinalIgnoreCase` is modelled as equality after `upper`, not as .NET's ordinal case folding.
- `SortedSet<string>` in `AutoCompleter` uses the default culture-sensitive comparer. The model uses ordinal UTF-16 order, so the Search results hold for ordinal order only.
- Strings in the autocompleter are UTF-16 code units (`Char16`). The morpher works on Dafny `char`s.
- `SortedDictionary`, `SortedSet` and their balancing are modelled as a `map` and as strictly sorted sequences. `UnionWith` is modelled as adding the texts one by one.
- The lazily evaluated `IEnumerable` results (`yield return` in `SplitToWords`, LINQ `Select`/`Where`) are computed eagerly as sequences. The consumer of `Morph` forces them fully, so the order of interning is the same.
- The C# `Grammema` class is static, shared by every engine and not thread-safe. Here it is one `Interner` object that the engine and its lemmas share. Concurrency is not modelled.
- `Morpher.SentenceMorpher.MorphWord`: states its result only when the names already interned, the dictionary's names and the token's requested names number at most 2^16 in all. Beyond that the codes can wrap, different names can share a code, and the answer is not characterised. The bound on the interner's growth holds unconditionally.
- `Morpher.SentenceMorpher.Morph`: the same 2^16 hypothesis as `MorphWord`, over the names every token of the sentence asks for.
- `Morpher.SentenceMorpher.MorphTokens`: the same 2^16 hypothesis as `Morph`.
- `Morpher.SentenceMorpher.Create`: requires every content line of the dictionary to hold a tab (`Parsable`), which is stronger than what `Create` itself needs. In the source, `Create` throws only when the first line of a block has no tab, in the `Lemm` constructor (Mophology/SentenceMorpher.cs:202). A later line without a tab throws only when the first `TryGetForm` of that lemma parses it (Mophology/SentenceMorpher.cs:253, 274). Neither crash path is modelled; every content line of an OpenCorpora dictionary holds a tab.
- `Lexicon.Lemm.TryGetForm`: also requires block lines with tabs. The `Form` constructor throws on a line without one.
- The shared-list aliasing of `block.Clear()` in `Create` (Mophology/SentenceMorpher.cs:34-36) is replaced by the fresh list it was meant to be.
- Clearing and nulling `block` in `EnsureInitialized` is modelled as setting the block to empty; its only purpose is releasing memory.
- The `int` counter `index` in `Create` is unbounded; overflow past 2^31 lemmas is not modelled.
- `AutoComplete.AutoCompleter.SearchDemo`: its requires say the set holds exactly the five demo names, the set that the demo's `AddToSearch` call builds. It does not derive that set from the call, because a lemma cannot call a method.
- The interner's `SortedDictionary<string, ushort>` (Mophology/SentenceMorpher.cs:303) uses the default culture-sensitive string comparer. The model's `map` uses exact equality. That changes which keys count as equal only for strings that the culture compares as equal without being the same characters.
- `Mophology/Program.cs`, `AutoComplete/Program.cs` (apart from the demo query), and `Microservices/` are not part of this model: they are console drivers, timing, file I/O and asynchronous service plumbing.
- `RequestLengthLimit` has a private setter that nothing calls after construction. The model keeps it as a field that only the constructor sets.

## Findings

| source | as written | input that shows it | evidently intended | confidence | as-written member | corrected member |
|---|---|---|---|---|---|---|
| AutoComplete/AutoComplete.cs:113-119 | `newPrefix` increments the prefix's last char with an unchecked cast, so U+FFFF wraps to U+0000. `newPrefix` then sorts below the prefix, and `GetViewBetween` throws `ArgumentException` | a prefix ending in U+FFFF, e.g. the one-code-unit prefix U+FFFF, with U+FFFF U+0061 stored | the stored strings that start with the prefix | not executed | AutoComplete.AutoCompleter.SearchOverflow | AutoComplete.AutoCompleter.SearchByPrefix |
