# Puzzle scripts of ilemaths, modelled in Dafny

The repository is a collection of independent Python scripts, each one a
solution to a puzzle posted on the ilemaths forum. This project models the
integer, string and finite-set logic of those scripts. For each operation it
proves the property the script relies on; the table below says, member by
member, what is proved, and "Left out" lists what is not.

- **Trouver un seul numéro** (the card game). There are `t` cards, each with a
  hidden value, and the values form a permutation of `0..t-1`. The player
  names `p` cards. The engine answers with the value of one of them and
  keeps, among the permutations it started with, those that agree with
  every answer. The engine starts from two seed permutations that differ on
  every card. The player wins if it can name a card together with its value.
  - `CardRules` holds the vocabulary: permutations, probes, clue
    dictionaries.
  - `CardEngine` models the engine.
  - `SimulatedStrategy`, `TheoreticalStrategy` and `NamiswanStrategy` model
    the three automatic players.
  - `CardLetters` models the card-letter conversions.
- **Chaîne de caractères et algo** (`LetterRuns`). Every digit of a message is
  kept. Every other character is replaced by its 1-based position inside
  its run of non-digits. The six implementations of the script are proved
  equal to one reference function, and that function is proved to meet the
  script's own check.
- **Combien de dispositions à partir de n cubes** (polycubes). `GrayCodes`
  models gen_gray_codes, `SteinhausJohnsonTrotter` gen_permutations, and
  `Solids` gen_rotations, gen_translations and the class Solid: its
  canonical cubes, move_to_origin, add_cube, equality and hash.
- **Suite** (`LookAndSay`): Conway's look-and-say sequence.
- **Et si Fermat avait eu tort** (`FermatSeries`): three series that give
  near misses a^3 + b^3 == c^3 ± 1.
- **Une grande famille de couples**: `Bezout` (extended Euclid),
  `PrimeSieve` (gen_primes), `PrimePowers` (gen_prime_powers) and `Couples`
  (find_y and the two solvers).
- **Hache-menu** (`ResidueSieve`): the sieve on times driven by the
  decimals of pi.
- **Une équation** (`TwoAdicRoots`): the roots of x^2 + a modulo 2^k, level
  by level.
- **Cubes et algorithme** (`CubeSums`): sums of k-th powers by a best-first
  search, and sums of four powers by a table of pairs.
- **3 points non alignés** (`ThreePoints`): the backtracking placement of
  pawns with no three on a line.
- **Sorcières mathématiciennes** (`Witches`): partitions identified by
  their signatures.
- **Fractions égyptiennes** (`EgyptianFractions`), **Espérance**
  (`Expectation`), **Décomposition judicieuse** (`Decomposition`),
  **Somme des carrés des chiffres** (`DigitSquares`), **De un à dix-sept**
  (`SubsetSum`), **Atteindre 12, variante** (`SignedSums`), **Arbres
  colorés** (`ColouredTrees`), **Démineur revisité** (`Minesweeper`), **Le
  courant passe-t-il** (`SwitchNetwork`), **Nombres puissants**
  (`PowerfulNumbers`) and **Une équation diophantienne**
  (`PowerDifference`): one module each.
- Shared modules:
  - `Decimal`: the decimal notation of naturals, as Python's `str` writes it.
  - `Combinatorics`: `itertools.combinations` and `permutations`.
  - `Sorting`: `sorted` and `max`.
  - `Numbers`: powers, floor division, gcd and binomials.
  - `Options`: the optional value.

Randomness (`random.choice`, `shuffle`) is modelled in one of two ways. Where
the proof must follow the draw, it is a parameter: `picks` holds the rotation
chosen for each triple, and `order` the shuffle. Elsewhere it is a
nondeterministic choice `:|`. Each generator that the engine answers is
fused with its consumer: every `yield cards` becomes a call to `Turn(engine,
cards)`, in which the engine answers and the player records the answer. Each
player class keeps a ghost `history` of every answer received. The
completeness of its hypotheses is stated against that history: no
permutation that agrees with every answer has been dropped.

## Model

| member | source | states |
|---|---|---|
| CardRules.Lookup | trouver-un-seul-numero-887480.py:268-271 | `clues.get(cards)`: None exactly when the probe is not a key, otherwise the recorded answer |
| CardRules.Put | trouver-un-seul-numero-887480.py:131-133 | `clues[cards] = value`: the dictionary keeps one entry per key, the key then finds the value, every other key finds what it found before, and a new key goes last |
| CardRules.NoCardShows | trouver-un-seul-numero-887480.py:271-275 | `all(p[c] != value for c in cards)` holds exactly when the permutation shows the value on none of the probed cards |
| CardRules.ValuesOn | trouver-un-seul-numero-887480.py:71-73 | the set of values a permutation puts on the probe is exactly the values it shows there, and it is not empty for a non-empty probe |
| CardRules.ConsistentAppend | trouver-un-seul-numero-887480.py:184-186 | a permutation agrees with one more answer exactly when it agrees with the earlier ones and shows the new answer on its probe |
| CardRules.Recorded | trouver-un-seul-numero-887480.py:131-133 | recording an answer keeps every clue in the answer log and keeps every probe a set of p increasing cards below t |
| CardEngine.TripleEndFacts | trouver-un-seul-numero-887480.py:56 | `n = t - [0, 4, 2][t % 3]` is a multiple of 3 between 0 and t, and leaves an even number of cards for the pairs |
| CardEngine.PartnersOfTriple | trouver-un-seul-numero-887480.py:57-59 | each triple of the second seed is rotated one way or the other, as the pick of that triple says |
| CardEngine.PartnersOfPair | trouver-un-seul-numero-887480.py:60-61 | each pair of the second seed is swapped |
| CardEngine.PartnerInRange | trouver-un-seul-numero-887480.py:53-61 | a card's partner is a card, and for t >= 2 it is never the card itself |
| CardEngine.PartnerInjective | trouver-un-seul-numero-887480.py:53-61 | two different cards have different partners, so the second seed is a permutation |
| CardEngine.SameBlockLinked | trouver-un-seul-numero-887480.py:53-61 | of two cards in one triple or pair, one is the partner of the other |
| CardEngine.PartnerValues | trouver-un-seul-numero-887480.py:54-61 | the loops over triples and pairs write every card's partner |
| CardEngine.GetPermutations | trouver-un-seul-numero-887480.py:53-67 | both seeds are permutations of 0..t-1, rearranged by the same shuffle; for t >= 2 they differ on every card, and for t = 1 both are (0,) |
| CardEngine.ShuffledSeeds | trouver-un-seul-numero-887480.py:63-65 | the joint shuffle keeps the second seed a permutation and keeps the seeds apart on every card |
| CardEngine.SeedsAlwaysShareAValue | trouver-un-seul-numero-887480.py:27-44 | with t <= 3(p - 1), any p distinct cards hold two cards of one triple or pair, so the two seeds share a value on every probe |
| CardEngine.SeedsShareOnAllProbes | trouver-un-seul-numero-887480.py:27-44 | with 2 <= t <= 3(p - 1), every probe of p increasing cards has a value that both seeds show |
| CardEngine.CommonOfPrefix | trouver-un-seul-numero-887480.py:74-77 | dropping permutations from the end can only enlarge the set of shared values |
| CardEngine.CommonValues | trouver-un-seul-numero-887480.py:71-73 | a value is shared exactly when every permutation shows it on the probe |
| CardEngine.SharedValues | trouver-un-seul-numero-887480.py:71-73 | the intersection loop computes exactly the shared values |
| CardEngine.Engine.constructor | trouver-un-seul-numero-887480.py:49-51 | the engine starts with the two seed permutations |
| CardEngine.Engine.GetValue | trouver-un-seul-numero-887480.py:69-78 | only the last permutations are dropped, never more than needed, and at least one is kept; the answer is shown by every permutation kept; when all of them share a value none is dropped |
| CardEngine.Engine.Verify | trouver-un-seul-numero-887480.py:80-81 | the result is a remaining permutation; it confirms the guess exactly when every remaining permutation does, and it is then the first one |
| CardEngine.FirstDisagreeing | trouver-un-seul-numero-887480.py:81 | the index of the first permutation that gives the card another value, or the length when there is none |
| CardLetters.CardsToString | trouver-un-seul-numero-887480.py:319-320 | each card becomes its letter of `ascii_letters`, and a card from 52 on is an error |
| CardLetters.CardsFromString | trouver-un-seul-numero-887480.py:323-324 | each letter becomes its index in `ascii_letters`, and any other character is an error |
| CardLetters.IndexIn | trouver-un-seul-numero-887480.py:324 | `ascii_letters.index(ch)`: the position of the letter, or an error when `ch` is not a letter |
| CardLetters.FromToString | trouver-un-seul-numero-887480.py:319-324 | reading back the string written for cards below 52 gives the cards |
| CardLetters.ToFromString | trouver-un-seul-numero-887480.py:319-324 | writing the cards read from a string of letters gives the string |
| CardLetters.LettersDistinct | trouver-un-seul-numero-887480.py:319-324 | the 52 letters are distinct, so the conversion is one-to-one |
| SimulatedStrategy.IsValid | trouver-un-seul-numero-887480.py:184-186 | `is_valid` holds exactly when the prefix shows every answer on its probe |
| SimulatedStrategy.FilterValid | trouver-un-seul-numero-887480.py:162-165 | the arrangements kept are exactly those that agree with every answer |
| SimulatedStrategy.KnownCard | trouver-un-seul-numero-887480.py:152-159 | a card comes back only when every prefix gives it the same value, and it is the first such card; None when there is no prefix or no such card |
| SimulatedStrategy.GroupProbe | trouver-un-seul-numero-887480.py:167-169 | every probe of group i is p increasing cards below t that ends at card i |
| SimulatedStrategy.SimulatedPlayer.constructor | trouver-un-seul-numero-887480.py:121-126 | the player starts with no clue and no prefix |
| SimulatedStrategy.SimulatedPlayer.AddClue | trouver-un-seul-numero-887480.py:131-133 | the answer is recorded, and recording it keeps every permutation that agrees with all answers |
| SimulatedStrategy.SimulatedPlayer.Turn | trouver-un-seul-numero-887480.py:332-333 | the engine answers the yielded probe and the player records it; the hypotheses stay complete, and when the seeds share a value on every probe the engine keeps all its permutations |
| SimulatedStrategy.SimulatedPlayer.ExtendPrefixes | trouver-un-seul-numero-887480.py:171-180 | the new prefixes are exactly the old ones followed by one value below t that they do not hold yet, kept when they agree with every answer |
| SimulatedStrategy.SimulatedPlayer.FirstProbe | trouver-un-seul-numero-887480.py:162-165 | after the first probe the prefixes have p cards and lose no permutation that agrees with the answer |
| SimulatedStrategy.SimulatedPlayer.ProbeGroup | trouver-un-seul-numero-887480.py:167-169 | every probe of group i lies among the first i + 1 cards, and the prefixes stay complete |
| SimulatedStrategy.SimulatedPlayer.FindCard | trouver-un-seul-numero-887480.py:161-182 | when the search ends, no permutation that agrees with every answer has been dropped |
| SimulatedStrategy.SimulatedPlayer.NextCard | trouver-un-seul-numero-887480.py:167-182 | one round of the loop asks every group ending in card i, keeps every permutation that agrees with the answers among the prefixes, now one card longer, and reports a known card exactly when get_known_card finds one |
| SimulatedStrategy.SimulatedPlayer.ExtendedIsComplete | trouver-un-seul-numero-887480.py:171-180 | extending the prefixes by one card keeps every permutation that agrees with every answer |
| SimulatedStrategy.SimulatedPlayer.GuessACard | trouver-un-seul-numero-887480.py:135-150 | the player deduces exactly when some card is known, and then guesses it; otherwise it guesses a value that some prefix gives the card |
| SimulatedStrategy.Extend | trouver-un-seul-numero-887480.py:173-179 | the loop over values and prefixes builds exactly the consistent extensions |
| SimulatedStrategy.ExtensionStep | trouver-un-seul-numero-887480.py:176-179 | considering one prefix for one value adds exactly that extension when it is new and consistent |
| SimulatedStrategy.PlaySimulated | trouver-un-seul-numero-887480.py:327-338 | a deduced card always wins; with t <= 3(p - 1) the player neither deduces nor wins |
| TheoreticalStrategy.Next | trouver-un-seul-numero-887480.py:241 | `permutation_.index(permutation[card])` is the card to which the second permutation gives the value the first gives to `card` |
| TheoreticalStrategy.NextInjective | trouver-un-seul-numero-887480.py:241 | the map to the next card is one-to-one |
| TheoreticalStrategy.ComputeCycles | trouver-un-seul-numero-887480.py:232-244 | the cycles of the pair are disjoint and hold every card; each starts at its smallest card, and they come in increasing order of start |
| TheoreticalStrategy.TraceCycle | trouver-un-seul-numero-887480.py:238-243 | following the map from a card not yet found closes a cycle back to that card, and meets only cards not yet found |
| TheoreticalStrategy.CycleAdded | trouver-un-seul-numero-887480.py:236-244 | adding the traced cycle keeps the invariant of the outer loop |
| TheoreticalStrategy.Alternate | trouver-un-seul-numero-887480.py:257 | `cycle[:-1:2]` holds the cards at even positions of the cycle, the last position excluded |
| TheoreticalStrategy.AlternatesMembers | trouver-un-seul-numero-887480.py:255-257 | a card is gathered exactly when it sits at an even position of some cycle other than its last |
| TheoreticalStrategy.AlternatesDistinct | trouver-un-seul-numero-887480.py:255-257 | the gathered cards are distinct |
| TheoreticalStrategy.AlternatesSeparate | trouver-un-seul-numero-887480.py:255-257 | on the gathered cards, no value of the first permutation is a value of the second |
| TheoreticalStrategy.PartitionSize | trouver-un-seul-numero-887480.py:232-244 | the cycles hold t cards between them |
| TheoreticalStrategy.AlternatesThird | trouver-un-seul-numero-887480.py:255-257 | with cycles of two cards or more, at least a third of the cards are gathered |
| TheoreticalStrategy.NoFixedCard | trouver-un-seul-numero-887480.py:250-251 | a pair that differs on every card has no cycle of a single card |
| TheoreticalStrategy.EnoughAlternates | trouver-un-seul-numero-887480.py:255-266 | when t >= 3p, a pair that differs on every card gives at least p gathered cards |
| TheoreticalStrategy.GatherAlternates | trouver-un-seul-numero-887480.py:255-257 | the loop gathers exactly the alternate cards of every cycle |
| TheoreticalStrategy.PadCards | trouver-un-seul-numero-887480.py:258-263 | the gathered cards stay in front; the smallest cards not there yet are added until there are p of them, and nothing is added when there already are |
| TheoreticalStrategy.SortDistinct | trouver-un-seul-numero-887480.py:265 | sorting distinct cards below t gives a strictly increasing sequence below t |
| TheoreticalStrategy.ProbeCards | trouver-un-seul-numero-887480.py:255-266 | the probe is p distinct increasing cards below t; it uses gathered cards only when there are p of them, and holds them all otherwise |
| TheoreticalStrategy.SeparatedPair | trouver-un-seul-numero-887480.py:268-275 | a probe made of gathered cards gets no answer that both permutations of the pair show |
| TheoreticalStrategy.KnownCard | trouver-un-seul-numero-887480.py:222-230 | a card comes back only when every permutation still possible gives it the same value, and it is the first such card; None when there is no set or it is empty |
| TheoreticalStrategy.ValuesSplit | trouver-un-seul-numero-887480.py:227-229 | a card whose set of values is not a singleton has two permutations that disagree on it |
| TheoreticalStrategy.TheoreticalPlayer.constructor | trouver-un-seul-numero-887480.py:191-196 | the player starts with no clue and no set of permutations |
| TheoreticalStrategy.TheoreticalPlayer.AddClue | trouver-un-seul-numero-887480.py:201-203 | the answer is recorded in the dictionary and in the answer log |
| TheoreticalStrategy.TheoreticalPlayer.Turn | trouver-un-seul-numero-887480.py:332-333 | the engine answers the probe and the player records the answer; the set stays complete |
| TheoreticalStrategy.TheoreticalPlayer.PairStep | trouver-un-seul-numero-887480.py:248-275 | a pair that agrees on some card changes nothing; otherwise the set only shrinks and stays complete, and when t >= 3p one of the pair is gone |
| TheoreticalStrategy.TheoreticalPlayer.DiscardPair | trouver-un-seul-numero-887480.py:271-275 | exactly those members of the pair that show the answer on no probed card are removed, and the set stays complete |
| TheoreticalStrategy.TheoreticalPlayer.DiscardInconsistent | trouver-un-seul-numero-887480.py:271-275 | a permutation that shows an answer on none of its probed cards disagrees with the answers received |
| TheoreticalStrategy.TheoreticalPlayer.FindCard | trouver-un-seul-numero-887480.py:246-275 | at the end the set is complete, and when t >= 3p any two permutations still possible agree on some card |
| TheoreticalStrategy.TheoreticalPlayer.AllSettled | trouver-un-seul-numero-887480.py:247-249 | once every pair of the initial pool is settled, any two remaining permutations agree on some card |
| TheoreticalStrategy.TheoreticalPlayer.SettledStays | trouver-un-seul-numero-887480.py:273-275 | removing permutations keeps settled pairs settled |
| TheoreticalStrategy.TheoreticalPlayer.GuessACard | trouver-un-seul-numero-887480.py:205-220 | the player deduces exactly when a card is known, and then guesses it; otherwise it guesses a value that some remaining permutation gives the card |
| TheoreticalStrategy.PlayTheoretical | trouver-un-seul-numero-887480.py:327-338 | a deduced card always wins; with t <= 3(p - 1) the player neither deduces nor wins |
| NamiswanStrategy.FirstAppearancesMembers | trouver-un-seul-numero-887480.py:297-302 | the keys of the intersections are distinct and are exactly the values answered |
| NamiswanStrategy.Probed | trouver-un-seul-numero-887480.py:297-302 | a card is probed exactly when it is in some recorded probe |
| NamiswanStrategy.Intersections | trouver-un-seul-numero-887480.py:297-302 | the groups follow the order in which values were first answered, and each holds the intersection of the probes answered with its value |
| NamiswanStrategy.CommonCardsStep | trouver-un-seul-numero-887480.py:299-302 | one more clue intersects its probe into the group of its value and leaves the other groups alone |
| NamiswanStrategy.CommonCardHoldsValue | trouver-un-seul-numero-887480.py:304-308 | in a permutation that agrees with every answer, an answered value sits on a card of its intersection |
| NamiswanStrategy.SingletonHoldsValue | trouver-un-seul-numero-887480.py:304-308 | a value whose intersection is a single card is that card's value in every permutation that agrees with every answer |
| NamiswanStrategy.FirstSingleton | trouver-un-seul-numero-887480.py:304-308 | the first group whose intersection is a single card |
| NamiswanStrategy.CombinationsAreProbes | trouver-un-seul-numero-887480.py:315-316 | the combinations asked are exactly the sets of p increasing cards below t |
| NamiswanStrategy.NamiswanPlayer.constructor | trouver-un-seul-numero-887480.py:283-287 | the player starts with no clue |
| NamiswanStrategy.NamiswanPlayer.AddClue | trouver-un-seul-numero-887480.py:292-294 | the answer is recorded in the dictionary and in the answer log |
| NamiswanStrategy.NamiswanPlayer.Turn | trouver-un-seul-numero-887480.py:332-333 | the engine answers the probe, the probe becomes a key and no key is lost |
| NamiswanStrategy.NamiswanPlayer.AskAllCombinations | trouver-un-seul-numero-887480.py:315-316 | afterwards every set of p increasing cards is a key of the clues |
| NamiswanStrategy.NamiswanPlayer.GuessACard | trouver-un-seul-numero-887480.py:296-313 | a deduction names the first value, in answer order, whose intersection is one card; otherwise no intersection is a single card and the guess is a card of the drawn intersection; the error path is taken only with no clue or an empty intersection |
| NamiswanStrategy.AnsweredIff | trouver-un-seul-numero-887480.py:297-302 | a value is a key of the intersections exactly when it has been answered |
| NamiswanStrategy.PlayNamiswan | trouver-un-seul-numero-887480.py:327-338 | a deduced card always wins; with t <= 3(p - 1) the player neither deduces nor wins |
| LetterRuns.CountingShape | chaine-de-caracteres-et-algo-885748.py:10-19 | "12...k" is made of digits and starts with '1' when k >= 1 |
| LetterRuns.ReplacedDigits | chaine-de-caracteres-et-algo-885748.py:10-19 | the rewriting holds only decimal digits |
| LetterRuns.ReplacedLength | chaine-de-caracteres-et-algo-885748.py:13-17 | the output is never shorter than the input, and it is as long as the input exactly when no run of non-digits reaches ten characters |
| LetterRuns.ReplacedAppend | chaine-de-caracteres-et-algo-885748.py:10-19 | the rewriting of two parts that meet at a digit is the concatenation of their rewritings |
| LetterRuns.ReplacedLetterRun | chaine-de-caracteres-et-algo-885748.py:10-19 | a run of k non-digits becomes "12...k" |
| LetterRuns.ReplacedStep | chaine-de-caracteres-et-algo-885748.py:13-17 | one more character adds itself when it is a digit, and otherwise its position in the current run |
| LetterRuns.RunLength | chaine-de-caracteres-et-algo-885748.py:49-52 | the length of the maximal run of one kind at the start of the string |
| LetterRuns.ReplaceLetters2 | chaine-de-caracteres-et-algo-885748.py:45-54 | replace_letters_2: groupby on digits, a digit group copied and a group of k letters replaced by 1..k; LetterRuns.ReplaceLetters2Agrees proves it equal to the reference |
| LetterRuns.ReplaceLetters2Agrees | chaine-de-caracteres-et-algo-885748.py:45-54 | replace_letters_2, which rewrites run by run, equals the reference rewriting |
| LetterRuns.Validate | chaine-de-caracteres-et-algo-885748.py:201-203 | the example '6930A85CDU744ZABR09' is rewritten as '6930185123744123409' |
| LetterRuns.ReplaceLetters | chaine-de-caracteres-et-algo-885748.py:10-19 | replace_letters computes the reference rewriting |
| LetterRuns.Flight | chaine-de-caracteres-et-algo-885748.py:22-42 | flight computes the reference rewriting |
| LetterRuns.ReplaceLetters3 | chaine-de-caracteres-et-algo-885748.py:57-78 | replace_letters_3 computes the reference rewriting |
| LetterRuns.CollectedEnd | chaine-de-caracteres-et-algo-885748.py:73-78 | the last two flushes of replace_letters_3 complete the rewriting |
| LetterRuns.GroupDigits | chaine-de-caracteres-et-algo-885748.py:155-169 | the chunks alternate digit substrings and counts, starting with a possibly empty digit substring; they cover the message exactly, and rendering them gives the rewriting |
| LetterRuns.GroupedEnd | chaine-de-caracteres-et-algo-885748.py:166-169 | the last yield closes the open run, and the chunks then cover the whole message |
| LetterRuns.AlternatingParity | chaine-de-caracteres-et-algo-885748.py:146-150 | the counts sit at the positions the slice `[offset::2]` picks |
| LetterRuns.LargestRun | chaine-de-caracteres-et-algo-885748.py:176 | `max(..., default=0)` is the longest count, 0 when there is none |
| LetterRuns.CountingTable | chaine-de-caracteres-et-algo-885748.py:175-177 | entry k of the table is "12...k" |
| LetterRuns.JoinChunks | chaine-de-caracteres-et-algo-885748.py:179-181 | replacing the counts through the table and joining gives the rendering of the chunks |
| LetterRuns.ReplaceLetters5 | chaine-de-caracteres-et-algo-885748.py:172-181 | replace_letters_5 computes the reference rewriting |
| LetterRuns.SplitRuns | chaine-de-caracteres-et-algo-885748.py:135-147 | the loop closes every run but the last, and the closed runs render the rewriting of the message up to the last run |
| LetterRuns.ReplaceLetters4 | chaine-de-caracteres-et-algo-885748.py:132-152 | replace_letters_4 fails exactly on the empty message, and otherwise computes the reference rewriting |
| LetterRuns.NbDigits | chaine-de-caracteres-et-algo-885748.py:81-90 | the number of decimal digits of a positive n |
| LetterRuns.CountingStep | chaine-de-caracteres-et-algo-885748.py:98-103 | appending str(i) to "12...(i-1)" multiplies its value by a power of ten and adds i |
| LetterRuns.IterBase | chaine-de-caracteres-et-algo-885748.py:98-103 | iter_base appends every number with d + 1 digits up to n and returns the next power of ten |
| LetterRuns.LettersToDigits | chaine-de-caracteres-et-algo-885748.py:93-107 | letters2digits(n) is (10^L, N), where N is the number written "12...n" and L its digit count; letters2digits(0) is (1, 0) |
| LetterRuns.SpelledLength | chaine-de-caracteres-et-algo-885748.py:93-107 | for n >= 1 the number written "12...n" has as many digits as that string |
| Decimal.StrShape | chaine-de-caracteres-et-algo-885748.py:16 | `str(n)` is a non-empty digit string with no leading zero, a single digit exactly below 10 |
| Decimal.ValueOfStr | chaine-de-caracteres-et-algo-885748.py:107 | `int(str(n)) == n` |
| Decimal.DigitCountUnique | chaine-de-caracteres-et-algo-885748.py:81-90 | a natural between 10^(L-1) and 10^L has exactly L digits |
| LookAndSay.Runs | suite-864999.py:15 | `groupby(germe)` gives no more groups than there are characters, and none exactly for the empty string |
| LookAndSay.Say | suite-864999.py:15 | `f"{len(tuple(g))}{c}"` is the count's decimal digits followed by the character, two characters exactly when the count is below ten |
| LookAndSay.Next | suite-864999.py:15 | the next term takes at least two characters per group, so it is empty exactly when the term is |
| LookAndSay.Term | suite-864999.py:11-15 | the term the generator yields after n steps is empty exactly when the seed is |
| LookAndSay.LeadLength | suite-864999.py:15 | the first group of `groupby`: the longest prefix of characters equal to the first, followed by a different character or the end |
| LookAndSay.Repeat | suite-864999.py:15 | `k` copies of one character |
| LookAndSay.RunsExpand | suite-864999.py:15 | the groups of a term spell it back, none is empty, two neighbouring groups carry different characters, and a non-empty term starts with its first group's character |
| LookAndSay.RunsUnique | suite-864999.py:15 | any list of non-empty runs with different neighbours that spells a term is the list `groupby` gives |
| LookAndSay.DecodeSaid | suite-864999.py:15 | runs shorter than ten are each said in two characters, and reading the pairs back gives the runs' string |
| LookAndSay.NextReadsBack | suite-864999.py:15 | when every run is shorter than ten, the next term has two characters per run, so an even length, and reading it as (count, character) pairs gives the previous term |
| LookAndSay.SaidLength | suite-864999.py:15 | every run takes at least two characters in the next term |
| LookAndSay.FirstTerms | suite-864999.py:11-15 | from the seed "1" the generator yields "1", "11", "21", "1211" |
| Expectation.FB | esperance-865365.py:14-17 | f_b is never negative, and it is at least 1 once both counts are positive |
| Expectation.FBGrows | esperance-865365.py:17 | f_b(b, n) exceeds f_b(b - 1, n) by at least one when b, n >= 1 |
| Expectation.FNSwapsFB | esperance-865365.py:20-23 | f_n(b, n) == f_b(n, b) for all arguments, which is why solve can do without f_n |
| Expectation.FBClosedForm | esperance-865365.py:14-17 | for b, n >= 1, f_b(b, n) == (2b - 1) C(n + b - 2, b - 1) |
| Expectation.SolveClosedForm | esperance-865365.py:25-31 | solve(k) == k C(2k, k), so the difference main reports is 0 for every k |
| Expectation.FN | esperance-865365.py:19-23 | f_n(b, n), 0 when either count is not positive; Expectation.FNSwapsFB proves it equal to f_b with the arguments swapped |
| Expectation.Solve | esperance-865365.py:25 | solve(nb_coins) == 2 f_b(nb_coins, nb_coins); Expectation.SolveClosedForm and Expectation.SolveOne give its value |
| Expectation.SolveOne | esperance-865365.py:25 | solve(1) == 2 |
| ColouredTrees.Size | arbres-colores-872223.py:7-8 | every group holds at least two trees |
| ColouredTrees.First | arbres-colores-872223.py:7-8 | every group starts at a positive tree number |
| ColouredTrees.FirstPair | arbres-colores-872223.py:15-20 | the two groups the loop passes in one step both hold `step` trees, so the next green group starts 2 * step trees further |
| ColouredTrees.Solve | arbres-colores-872223.py:5-23 | below 3 the answer is ('R', 1, n); for every n >= 1 the returned position lies within the returned group, the group's first tree plus the position minus one is n, and the colour is green exactly for even groups |
| ColouredTrees.FirstGrows | arbres-colores-872223.py:7-8 | a later group starts after every tree of an earlier one |
| ColouredTrees.PlaceUnique | arbres-colores-872223.py:7-8 | a tree lies at one group and one position only, so the answer of solve is the only correct one |
| ColouredTrees.NextTree | arbres-colores-872223.py:7-8 | the tree after a given one is the next in its group, or the first of the next group when the group is full |
| ColouredTrees.Pattern | arbres-colores-872223.py:7-8 | the groups start at trees 1, 3, 6, 9, 13, 17, 22, as the comment lays out |
| FermatSeries.Series | et-si-fermat-avait-eu-tort-876941.py:6-13 | term i of gen_series(*start): the seeds, then 82 times the sum of the two previous terms minus the one before them; FermatSeries.SeriesLastThree, FermatSeries.Prefix and FermatSeries.Alternates state its properties |
| FermatSeries.SeriesLastThree | et-si-fermat-avait-eu-tort-876941.py:6-13 | after the seeds, the series follows `n2, n1, n0 = start[-3:]`: it is the series seeded with the last three seeds only |
| FermatSeries.Prefix | et-si-fermat-avait-eu-tort-876941.py:6-13 | the generator's first `count` values are the seeds followed by the terms of the recurrence x[i] = 82 (x[i-1] + x[i-2]) - x[i-3] |
| FermatSeries.Alternates | et-si-fermat-avait-eu-tort-876941.py:20 | the series seeded (1, -1, 1) alternates 1, -1, 1, ... |
| FermatSeries.CheckEquations | et-si-fermat-avait-eu-tort-876941.py:16-24 | the check succeeds exactly when a^3 + b^3 == c^3 + d at every index below the count |
| FermatSeries.FirstEquations | et-si-fermat-avait-eu-tort-876941.py:23 | the asserted equation holds at the first eight indices |
| SwitchNetwork.Stage | le-courant-passe-t-il-883754.py:9 | after a stage the current still fits in four wires |
| SwitchNetwork.StageWires | le-courant-passe-t-il-883754.py:9 | wire j is lit after a stage exactly when wire j + 1 was lit and switch j is set, or wire j - 1 was lit and switch j - 1 is not |
| SwitchNetwork.Current | le-courant-passe-t-il-883754.py:4-12 | the current leaving the three stages fits in four wires |
| SwitchNetwork.GetCurrent | le-courant-passe-t-il-883754.py:4-12 | the loop over the three stages computes the current of the three stages applied in order, a value in [0, 15] |
| SwitchNetwork.StageBitsOf | le-courant-passe-t-il-883754.py:8-10 | the three 3-bit fields the loop reads do not depend on bits from 9 up |
| SwitchNetwork.NineBits | le-courant-passe-t-il-883754.py:7-10 | configurations with the same low nine bits give the same current |
| SwitchNetwork.Extremes | le-courant-passe-t-il-883754.py:4-12 | get_current(0) == 8 and get_current(511) == 1 |
| SwitchNetwork.Blocked | le-courant-passe-t-il-883754.py:28-33 | there are no more blocked configurations below k than k |
| SwitchNetwork.CountPassing | le-courant-passe-t-il-883754.py:26-34 | main's count plus the number of blocked configurations is 512 |
| Minesweeper.CellCount | demineur-revisite-877247.py:12-16 | a count is between 0 and 4 |
| Minesweeper.NextColumn | demineur-revisite-877247.py:21 | the next column has one cell per row, set exactly where the count is even |
| Minesweeper.ValidIffEmptyNext | demineur-revisite-877247.py:18-21 | every count is odd exactly when the column that follows is empty |
| Minesweeper.GrowKeeps | demineur-revisite-877247.py:25-26 | appending the next column keeps the grid consistent and keeps the validity of every earlier length |
| Minesweeper.Walk | demineur-revisite-877247.py:8-26 | the grid starts with the start column and each later column follows from the two before it; its length is current_length; valid_lengths is strictly increasing and holds exactly the lengths examined whose counts are all odd; a stop means the next column is the start again and the last column is empty |
| ResidueSieve.GetNbAxes | hache-menu-864981.py:10-14 | the result is the first n whose modulus 2 * digit + 1 divides t + n + 1; None when no digit stops the search, where the source runs off the digits |
| ResidueSieve.FirstZero | hache-menu-864981.py:18 | the position of the first zero digit, None when there is none |
| ResidueSieve.ShiftResidue | hache-menu-864981.py:26 | shifting a time by a multiple of the running modulus keeps its residue modulo every modulus that divides it |
| ResidueSieve.AvoidsShift | hache-menu-864981.py:26 | such a shift keeps a time clear of every residue forbidden so far |
| ResidueSieve.Split | hache-menu-864981.py:26 | every time below the new modulus is an old time plus a shift `i * mod` with i below m // gcd |
| ResidueSieve.Below | hache-menu-864981.py:26 | every shifted time stays below the new modulus |
| ResidueSieve.SpreadExact | hache-menu-864981.py:22-27 | one round keeps exactly the times below the new modulus that avoid the forbidden residues of the digits processed so far |
| ResidueSieve.NextModulus | hache-menu-864981.py:25-27 | the new modulus `mod * (m // gcd(m, mod))` is a multiple of m and of the old modulus |
| ResidueSieve.Sieve | hache-menu-864981.py:17-27 | None exactly when the digits hold no zero; otherwise every modulus 3, 5, ..., 19 divides the final modulus, and the allowed times are exactly the times below it that avoid every forbidden residue |
| ResidueSieve.ResidueMatch | hache-menu-864981.py:23 | a time has the residue forbidden by position i exactly when the modulus divides t + i |
| ResidueSieve.AllowedIffNoEarlyStop | hache-menu-864981.py:10-26 | the sieve keeps a time exactly when get_nb_axes on it passes every position before the first zero, where it always stops; the allowed times are the times with the most axes |
| Numbers.DivModUnique | hache-menu-864981.py:26 | a quotient and a remainder in [0, m) are the ones Euclidean division gives |
| Numbers.ModShift | hache-menu-864981.py:26 | adding a multiple of m leaves the remainder modulo m |
| SubsetSum.SumsAreSubsetSums | de-un-a-dix-sept-879849.py:8-19 | a sum is reachable exactly when some choice of tokens, each used at most once, adds up to it |
| SubsetSum.KeptBounds | de-un-a-dix-sept-879849.py:9-18 | the kept sums always hold 0 and nothing above the target |
| SubsetSum.KeptStep | de-un-a-dix-sept-879849.py:11-18 | with a positive token, the kept sums of one more token are the old ones and the old ones plus the token that stay at most the target |
| SubsetSum.ShiftsPrefix | de-un-a-dix-sept-879849.py:12-17 | the new sums grow by one candidate per sum visited |
| SubsetSum.ShiftsMembers | de-un-a-dix-sept-879849.py:12-17 | a value is among the new sums exactly when it is a visited sum plus the token and at most the target |
| SubsetSum.ShiftsOfSet | de-un-a-dix-sept-879849.py:12-17 | after visiting every kept sum, the new sums are the kept sums plus the token that stay at most the target |
| SubsetSum.Listing | de-un-a-dix-sept-879849.py:12 | the order of the walk lists exactly the set's elements |
| SubsetSum.AddToken | de-un-a-dix-sept-879849.py:11-17 | the walk over the kept sums hits the target exactly when the target minus the token is kept, and otherwise collects exactly the shifted sums that stay at most the target |
| SubsetSum.HasSum | de-un-a-dix-sept-879849.py:8-19 | for positive tokens and a positive target, has_sum answers True exactly when some choice of tokens adds up to the target |
| SubsetSum.TokenStep | de-un-a-dix-sept-879849.py:10-18 | one pass of the outer loop either finds the target, which the whole token list then reaches, or leaves it unreachable and grows the kept sums to those of one more token |
| SubsetSum.HitStep | de-un-a-dix-sept-879849.py:13-15 | with the target not yet reachable, one more token reaches it exactly when the target minus the token is kept |
| SubsetSum.SumsGrow | de-un-a-dix-sept-879849.py:18 | more tokens never lose a reachable sum |
| SubsetSum.Reaching | de-un-a-dix-sept-879849.py:24-26 | no more draws reach the target than there are draws |
| SubsetSum.DrawRatio | de-un-a-dix-sept-879849.py:22-27 | the numerator counts exactly the draws whose tokens reach the target, and the denominator counts every draw |
| SubsetSum.DrawCount | de-un-a-dix-sept-879849.py:24 | there are C(tokens, taken_tokens) draws |
| SubsetSum.DrawPositive | de-un-a-dix-sept-879849.py:24 | every drawn token is positive |
| DigitSquares.SumDigits | somme-des-carres-des-chiffres-880707.py:8-13 | the divmod loop returns the sum of d ** power over the base-`base` digits of n |
| DigitSquares.DigitStep | somme-des-carres-des-chiffres-880707.py:10-12 | one divmod step splits the lowest digit's power off the sum and strictly shrinks a positive n |
| DigitSquares.SquareSumPositive | somme-des-carres-des-chiffres-880707.py:22 | a positive number has a positive digit-square sum, so 0 never enters the graph |
| DigitSquares.SquareSumSmall | somme-des-carres-des-chiffres-880707.py:22 | a number below 1000 has a digit-square sum of at most 243 |
| DigitSquares.SquareSumDecreases | somme-des-carres-des-chiffres-880707.py:22 | from 1000 on, the digit-square sum is strictly smaller than the number |
| DigitSquares.SquareSumBounded | somme-des-carres-des-chiffres-880707.py:19-24 | below any bound of at least 1000 the map stays below the bound, so get_nodes can only add finitely many nodes |
| DigitSquares.Range | somme-des-carres-des-chiffres-880707.py:18 | range(lo, hi) as a set holds exactly lo to hi - 1 |
| DigitSquares.GetNodes | somme-des-carres-des-chiffres-880707.py:16-25 | the nodes hold every number from 1 to limit - 1, are closed under the digit-square map, are all positive, and each is a start or the image of another node |
| DigitSquares.UnhappyCycle | somme-des-carres-des-chiffres-880707.py:8-13 | the digit-square map sends 4 round the cycle 16, 37, 58, 89, 145, 42, 20 and back to 4 |
| SignedSums.Verif | atteindre-12-variante-873815.py:10-16 | verif(l, nb), peeling the last entry off with both signs; SignedSums.VerifIffSigns and SignedSums.VerifSymmetric state what it decides |
| SignedSums.VerifIffSigns | atteindre-12-variante-873815.py:10-16 | verif(l, nb) holds exactly when some choice of a sign for each entry of l adds up to nb |
| SignedSums.VerifSymmetric | atteindre-12-variante-873815.py:10-16 | nb is reachable exactly when -nb is |
| SignedSums.SignedValuesVerif | atteindre-12-variante-873815.py:10-16 | the set of values built like verif holds exactly the nb that verif accepts |
| SignedSums.AbsStep | atteindre-12-variante-873815.py:39 | the update of suite_2 turns the absolute signed sums of l into exactly those of l with one more throw |
| SignedSums.AbsStepOut | atteindre-12-variante-873815.py:39 | every absolute signed sum after a throw x is abs(n - x) or n + x for an earlier one n |
| SignedSums.AbsStepIn | atteindre-12-variante-873815.py:39 | for every earlier absolute signed sum n, both abs(n - x) and n + x are absolute signed sums after the throw x |
| SignedSums.ThrowStep | atteindre-12-variante-873815.py:36-39 | one pass of suite_2's loop keeps its set equal to the absolute signed sums and its stop test equal to verif |
| SignedSums.AbsReach | atteindre-12-variante-873815.py:33-36 | abs(nb) is an absolute signed sum exactly when verif accepts nb |
| SignedSums.Suite | atteindre-12-variante-873815.py:19-24 | suite stops after the first number of throws that verif accepts, and never earlier |
| SignedSums.Suite2 | atteindre-12-variante-873815.py:27-41 | suite_2 stops after exactly the same number of throws as suite |
| Bezout.Gcde | une-grande-famille-de-couples-888054.py:53-58 | gcde(a, b) returns (d, x, y) with a * x + b * y == d, on Python's floor division and modulo |
| Bezout.GcdeDivides | une-grande-famille-de-couples-888054.py:53-58 | the d of gcde divides both arguments |
| Bezout.GcdeIsGcd | une-grande-famille-de-couples-888054.py:53-58 | the absolute value of gcde's d is the greatest common divisor of the absolute values, the number math.gcd returns |
| Bezout.CoprimeWitness | une-grande-famille-de-couples-888054.py:53-58 | coprime numbers have coefficients combining them to 1, taken from gcde with the sign of d corrected |
| Bezout.CoprimeFromWitness | une-grande-famille-de-couples-888054.py:48 | a combination equal to 1 makes two numbers coprime |
| Bezout.CoprimeMul | une-grande-famille-de-couples-888054.py:39-41 | a number coprime to two factors is coprime to their product |
| Bezout.CoprimeDivisors | une-grande-famille-de-couples-888054.py:39-41 | divisors of coprime numbers are coprime |
| Bezout.ConsecutiveCoprime | une-grande-famille-de-couples-888054.py:36-38 | x and x + 1 are coprime |
| Bezout.Euclid | une-grande-famille-de-couples-888054.py:21-33 | a prime dividing a product divides one of the factors |
| Bezout.PrimeDividesPower | une-grande-famille-de-couples-888054.py:21-33 | a prime dividing a power of a prime is that prime |
| Bezout.PrimePowerUnique | une-grande-famille-de-couples-888054.py:21-33 | a prime power has exactly one prime: p^a == q^b with a, b at least 1 forces p == q |
| PrimeSieve.SmallestPrimeFactor | une-grande-famille-de-couples-888054.py:8-18 | every composite n at least 2 has a prime factor p with p * p <= n |
| PrimeSieve.NextMultiple | une-grande-famille-de-couples-888054.py:14-17 | the key under which the sieve files a prime p when the scan is at n: a multiple of p, at least n and at least p * p, and the first such |
| PrimeSieve.NextMultipleStep | une-grande-famille-de-couples-888054.py:16-17 | moving the scan past n moves p's key by p exactly when the key was n, and leaves it otherwise |
| PrimeSieve.SquareFiled | une-grande-famille-de-couples-888054.py:14 | a prime found at n is first filed at n * n, its first multiple not yet passed |
| PrimeSieve.RefileMembers | une-grande-famille-de-couples-888054.py:16-17 | refiling the primes of n adds each prime p under n + p and keeps every other entry |
| PrimeSieve.SieveStart | une-grande-famille-de-couples-888054.py:10 | the empty dictionary satisfies the sieve invariant when the scan starts at 2 |
| PrimeSieve.KeyIffComposite | une-grande-famille-de-couples-888054.py:12 | under the sieve invariant, n is a key of the dictionary exactly when n is not prime |
| PrimeSieve.CompositeStep | une-grande-famille-de-couples-888054.py:15-18 | refiling the primes of a composite n and deleting n keeps the sieve invariant at n + 1 |
| PrimeSieve.PrimeStep | une-grande-famille-de-couples-888054.py:12-14 | filing a new prime n under n * n keeps the sieve invariant at n + 1, and n * n was no key before |
| PrimeSieve.PrimesFound | une-grande-famille-de-couples-888054.py:11-13 | one step of the scan keeps the yielded numbers increasing and equal to the primes below the scan |
| PrimeSieve.RefileAll | une-grande-famille-de-couples-888054.py:16-17 | the inner loop over composites[n] produces the dictionary that refiling all its primes specifies |
| PrimeSieve.GenPrimes | une-grande-famille-de-couples-888054.py:8-18 | gen_primes, run up to a limit, yields exactly the primes below the limit, in increasing order |
| PrimePowers.MinIndex | une-grande-famille-de-couples-888054.py:28-29 | the index of a smallest power in the list of (power, prime) pairs: the head of the heap |
| PrimePowers.PowExponentStrict | une-grande-famille-de-couples-888054.py:31 | powers of a prime grow strictly with the exponent |
| PrimePowers.HeapStart | une-grande-famille-de-couples-888054.py:23 | the empty heap with nothing yielded satisfies the heap invariant before the first prime |
| PrimePowers.Pop | une-grande-famille-de-couples-888054.py:29-31 | yielding the smallest power p^e and replacing it by p^(e + 1) keeps the heap invariant: the yielded numbers stay exactly the prime powers below the new low mark |
| PrimePowers.Raise | une-grande-famille-de-couples-888054.py:28 | once every power on the heap is at least hi, no prime power below hi is missing, so the low mark moves to hi |
| PrimePowers.Push | une-grande-famille-de-couples-888054.py:33 | pushing (q, q) for the next prime q keeps the heap invariant with one more prime |
| PrimePowers.YieldBelow | une-grande-famille-de-couples-888054.py:28-31 | the inner loop yields every prime power below the next prime, in increasing order, and leaves every heap entry at or above it |
| PrimePowers.PrimePowerAtLeastTwo | une-grande-famille-de-couples-888054.py:21-33 | every prime power is at least 2 |
| PrimePowers.FirstPrimePowers | une-grande-famille-de-couples-888054.py:21-33 | the sequence begins 2, 3, 4, 5 |
| PrimePowers.GenPrimePowers | une-grande-famille-de-couples-888054.py:21-33 | gen_prime_powers yields, in increasing order, exactly the prime powers below the prime it has reached, and that prime is the largest below the limit |
| Couples.ISqrt | une-grande-famille-de-couples-888054.py:46 | int(x ** .5) taken as the exact integer square root: r * r <= x < (r + 1) * (r + 1) |
| Couples.ProperPairSwap | une-grande-famille-de-couples-888054.py:49-50 | the pairs of gen_proper_divisors come in both orders |
| Couples.ProperPairDistinct | une-grande-famille-de-couples-888054.py:48 | a pair with equal factors at least 2 is never proper, so no pair is yielded twice |
| Couples.ProperDivisors | une-grande-famille-de-couples-888054.py:45-50 | gen_proper_divisors(x) yields exactly the pairs (a, b) with a, b at least 2, a * b == x and gcd(a, b) == 1, each once |
| Couples.CrossCoprime | une-grande-famille-de-couples-888054.py:39 | with x == a * b and x + 1 == c * d, ad and bc are coprime |
| Couples.Glue | une-grande-famille-de-couples-888054.py:39-42 | the y find_y builds from the splittings (a, b) of x and (c, d) of x + 1, taken non-negative as Python's % does; Couples.GlueDivides, Couples.GlueSolution and Couples.GlueUnique state what it is |
| Couples.GlueDivides | une-grande-famille-de-couples-888054.py:39-42 | the y of find_y is below x(x + 1), a multiple of bc, and y + 1 is a multiple of ad |
| Couples.GlueSolution | une-grande-famille-de-couples-888054.py:36-42 | every y that find_y builds passes all five tests of solve_brute_force |
| Couples.FindY | une-grande-famille-de-couples-888054.py:36-42 | find_y(x) yields only solutions, one for every pair of splittings of x and x + 1, and never the same y twice |
| Couples.SplitUnique | une-grande-famille-de-couples-888054.py:36-42 | y fixes the splitting: two splittings x == a * b with b dividing y and a dividing y + 1 are the same |
| Couples.GlueInjective | une-grande-famille-de-couples-888054.py:36-42 | different pairs of splittings of x and x + 1 give different y |
| Couples.FreshResidue | une-grande-famille-de-couples-888054.py:37-42 | the y built in the current step of the two loops of find_y differs from every y yielded before it |
| Sorting.SortStrict | une-grande-famille-de-couples-888054.py:66 | sorted() of pairwise different numbers is strictly increasing |
| Couples.SolveBruteForce | une-grande-famille-de-couples-888054.py:72-82 | solve_brute_force, run up to a limit on x, yields exactly the pairs passing its tests, in lexicographic order |
| Couples.ProperPairNotPrimePower | une-grande-famille-de-couples-888054.py:45-50 | a number with a proper splitting is no prime power and is at least 4 |
| Couples.NoPrimePowerBetween | une-grande-famille-de-couples-888054.py:64-65 | no prime power lies strictly between two consecutive ones that gen_prime_powers yields |
| Couples.SplitFactors | une-grande-famille-de-couples-888054.py:36-42 | when x divides y(y + 1), gcd(x, y) divides y and its cofactor divides y + 1 |
| Couples.SplitProper | une-grande-famille-de-couples-888054.py:45-50 | that splitting is proper when x divides neither y nor y + 1 |
| Couples.Gauss | une-grande-famille-de-couples-888054.py:41 | a number coprime to m and dividing m * z divides z |
| Couples.CrtUnique | une-grande-famille-de-couples-888054.py:41-42 | two numbers below ad * bc that are multiples of bc with successors multiples of ad are equal (the Chinese remainder theorem) |
| Couples.GlueUnique | une-grande-famille-de-couples-888054.py:41-42 | the only y below x(x + 1) with bc dividing y and ad dividing y + 1 is the one find_y builds |
| Couples.SolutionGlued | une-grande-famille-de-couples-888054.py:72-82 | every solution of solve_brute_force is built by find_y from some splitting of x and of x + 1 |
| Couples.PrimePowerNoSolution | une-grande-famille-de-couples-888054.py:64-65 | when x or x + 1 is a prime power there is no solution, which is why solve skips those x |
| Couples.SolveGap | une-grande-famille-de-couples-888054.py:65-67 | for the x strictly between consecutive prime powers, appends the sorted find_y results, keeping the pairs in strictly increasing (x, y) order, and keeps everything found so far |
| Couples.SolvedAgrees | une-grande-famille-de-couples-888054.py:61-82 | below the bound, solve yields a pair exactly when it passes the tests of solve_brute_force |
| Couples.IncreasingUnique | une-grande-famille-de-couples-888054.py:89-92 | two lists of pairs in strictly increasing (x, y) order with the same members are equal pair by pair |
| Couples.Verify | une-grande-famille-de-couples-888054.py:85-92 | the comparison verify makes: solve's list up to the last prime power it reached equals, pair for pair and in order, solve_brute_force's list for the same x |
| Couples.Solve | une-grande-famille-de-couples-888054.py:61-69 | solve yields only solutions, every solution with x + 1 below the last prime power reached, each once, in strictly increasing (x, y) order |
| Decomposition.RunSumClosed | decomposition-judicieuse-n-2-876853.py:9-11 | the run a, ..., a + k adds up to (k + 1)(2a + k) / 2, the formula solve uses for r |
| Decomposition.ExcessInRun | decomposition-judicieuse-n-2-876853.py:9-11 | for every k >= 1, the k + 1 terms from a minus r add up to n, and r == a + i for some 0 <= i < k |
| Decomposition.FactorsMembers | decomposition-judicieuse-n-2-876853.py:14-17 | the factors multiplied are exactly the terms a, ..., a + k other than r |
| Decomposition.FactorsIncreasing | decomposition-judicieuse-n-2-876853.py:15 | the factors are multiplied in increasing order |
| Decomposition.FactorsCount | decomposition-judicieuse-n-2-876853.py:14-17 | leaving r out of the k + 1 terms leaves exactly k factors |
| Decomposition.RunProduct | decomposition-judicieuse-n-2-876853.py:14-17 | the product loop computes the product of those factors |
| Decomposition.Candidate | decomposition-judicieuse-n-2-876853.py:10-17 | the tuple (product, k, a, r) solve builds for k; Decomposition.CandidateFacts states that it is a decomposition of n |
| Decomposition.CandidateFacts | decomposition-judicieuse-n-2-876853.py:9-17 | every tuple (product, k, a, r) solve builds is a decomposition of n with a product of k factors |
| Decomposition.KeepStep | decomposition-judicieuse-n-2-876853.py:19-20 | keeping the tuple of k, when best[1] is k - 1 and d ** 1 is d, extends the run of improvements |
| Decomposition.Solve | decomposition-judicieuse-n-2-876853.py:5-26 | solve returns the tuple of the last k before the first that falls short of d times the kept product, every earlier k having improved; the first k is always kept |
| PowerDifference.GapGrows | une-equation-diophantienne-881391.py:8-16 | the gap (x + 1)^p - x^p between consecutive powers never shrinks as x grows |
| PowerDifference.AdvanceB | une-equation-diophantienne-881391.py:9-11 | when b^p + m < c^p, no c' >= c pairs with b, so b can move up without losing a solution |
| PowerDifference.AdvanceC | une-equation-diophantienne-881391.py:12-16 | when b^p + m >= c^p, the only b' >= b that pairs with c is b itself, yielded when equal, so c can move up |
| PowerDifference.OnlyB | une-equation-diophantienne-881391.py:12-14 | with b^p + m >= c^p, no larger b' solves the equation with c |
| PowerDifference.ExitComplete | une-equation-diophantienne-881391.py:8 | once b reaches c the search has found every solution |
| PowerDifference.Solve | une-equation-diophantienne-881391.py:4-16 | with p == 2a and m == 12 a^p, solve yields only pairs 1 <= b < c with c^p - b^p == m, with strictly increasing c, and when the loop ends it has yielded every such pair |
| PowerfulNumbers.MinIndex | nombres-puissants-882341.py:11-12 | the least entry in Python's tuple order, the one heappop removes |
| PowerfulNumbers.FormMonotone | nombres-puissants-882341.py:16 | a column's value grows with b2 |
| PowerfulNumbers.PowerfulPositive | nombres-puissants-882341.py:6-17 | every powerful number is at least 1 |
| PowerfulNumbers.ColumnBelow | nombres-puissants-882341.py:9-17 | a powerful number between the last yield and b3^3 has its column on the heap, at or below it |
| PowerfulNumbers.PoppedLeast | nombres-puissants-882341.py:11-15 | a newly yielded (v, b2, b3) has the least b2 among all ways of writing v |
| PowerfulNumbers.NoneSkipped | nombres-puissants-882341.py:11-15 | no powerful number lies between the last yield and the least heap entry |
| PowerfulNumbers.PopYields | nombres-puissants-882341.py:12-15 | yielding v when it exceeds last_v keeps the yields strictly increasing and equal to the powerful numbers up to v; a value that is not new equals last_v |
| PowerfulNumbers.PopColumns | nombres-puissants-882341.py:16 | pushing the next b2 of the popped column keeps every entry of the form b2^2 b3^3 and at least the popped value |
| PowerfulNumbers.Pop | nombres-puissants-882341.py:11-16 | one pop and push keeps the heap invariant |
| PowerfulNumbers.Push | nombres-puissants-882341.py:17 | pushing (b3^3, 1, b3) once every entry is at least b3^3 opens column b3 and keeps the invariant |
| PowerfulNumbers.PopBelow | nombres-puissants-882341.py:11-16 | the inner loop leaves every heap entry at least b3^3 and keeps the invariant |
| PowerfulNumbers.GenPowerful | nombres-puissants-882341.py:6-17 | gen_powerful, run for b3 up to top, yields exactly the powerful numbers below top^3, each once, in strictly increasing order, each as b2^2 b3^3 with b2, b3 >= 1 and the least b2 |
| PowerfulNumbers.Finish | nombres-puissants-882341.py:9-17 | after the outer loop the yields are exactly the powerful numbers below top^3 |
| PowerfulNumbers.FirstIsOne | nombres-puissants-882341.py:7-15 | the first yield is (1, 1, 1) |
| PowerfulNumbers.ValuesMembers | nombres-puissants-882341.py:15 | a value has been yielded exactly when some yielded entry carries it |
| TwoAdicRoots.Valuation | une-equation-887860.py:9 | t is the number of factors 2 of a: 2^t divides a and a / 2^t is odd |
| TwoAdicRoots.ValuationOf | une-equation-887860.py:9 | the valuation of 2^t q with q odd is t, and 2^t q is not zero |
| TwoAdicRoots.OddPart | une-equation-887860.py:13-14 | after t -= t % 2, a >> t is not zero and keeps 0 or 1 factor 2; with none left it is the odd part of a |
| TwoAdicRoots.NegatedRoot | une-equation-887860.py:43-48 | the roots modulo m are closed under x -> -x modulo m |
| TwoAdicRoots.LowLevels | une-equation-887860.py:19-23 | for odd a, {0} is every root modulo 1 and {1} every root modulo 2 |
| TwoAdicRoots.FourthLevel | une-equation-887860.py:24-25 | for odd a, the roots modulo 4 are {1, 3} when -a % 4 == 1 and none otherwise |
| TwoAdicRoots.EighthLevel | une-equation-887860.py:27-30 | for odd a, the roots modulo 8 are {1, 3, 5, 7} when -a % 8 == 1 and none otherwise |
| TwoAdicRoots.RootHalves | une-equation-887860.py:40-42 | a root x modulo an even h is odd, and n == (x^2 + a) >> (k - 1) is even exactly when x is also a root modulo 2h |
| TwoAdicRoots.TimesMod | une-equation-887860.py:45-46 | for odd x below h, x * (h + 1) modulo 2h is x + h |
| TwoAdicRoots.LiftedValues | une-equation-887860.py:39-48 | for a root x modulo h the loop body adds nothing, or exactly x, 2h - x, x + h and h - x; it adds them exactly when x is a root modulo 2h |
| TwoAdicRoots.ShiftedRoots | une-equation-887860.py:43-48 | a root x modulo 2h brings 2h - x, x + h and h - x along as roots |
| TwoAdicRoots.LiftsAreRoots | une-equation-887860.py:39-48 | everything the loop body adds is a root modulo 2h |
| TwoAdicRoots.RootsLift | une-equation-887860.py:39-48 | every root modulo 2h is added by the loop body for its residue modulo h |
| TwoAdicRoots.LiftRoots | une-equation-887860.py:35-50 | gathering over all roots modulo h gives exactly all roots modulo 2h |
| TwoAdicRoots.GatherLifts | une-equation-887860.py:39-48 | the set built holds exactly what the loop body adds for the roots of the level |
| TwoAdicRoots.Climb | une-equation-887860.py:35-50 | one pass of the while loop after the yield: from every root modulo 2^k, k and m move up a level and xs becomes every root modulo 2^(k+1) |
| TwoAdicRoots.Lift | une-equation-887860.py:35-50 | from every root modulo 2^(k-1), the new set is every root modulo m == 2^k |
| TwoAdicRoots.HalfShift | une-equation-887860.py:27-50 | when x^2 + a == q h with q odd and 8 dividing h, x + h / 2 is a root modulo 2h |
| TwoAdicRoots.RootsPersist | une-equation-887860.py:27-50 | for odd a with -a % 8 == 1, every level k >= 3 has a root |
| TwoAdicRoots.OddRoots | une-equation-887860.py:19-50 | for odd a, level i is (i, 2^i, every root modulo 2^i); the levels stop early only at a level without roots, never when -a % 8 == 1 |
| TwoAdicRoots.FindRoots | une-equation-887860.py:6-50 | the levels are those Yields describes for the valuation of a |
| TwoAdicRoots.ScaledRoot | une-equation-887860.py:15 | a root x of b modulo p scales to a root x s of s^2 b modulo p s^2 |
| TwoAdicRoots.ShiftLevels | une-equation-887860.py:14-15 | the for loop over find_roots(a >> t): each level (k, m, xs) becomes (k + t, m 2^t, xs scaled by 2^(t/2)), one level per inner level |
| TwoAdicRoots.ScaledRoots | une-equation-887860.py:15 | for even t, the roots of b modulo 2^i shifted by t / 2 are roots of 2^t b modulo 2^(i + t) |
| TwoAdicRoots.YieldsSound | une-equation-887860.py:6-50 | every level has m == 2^k and holds only roots modulo m, and k strictly increases |
| TwoAdicRoots.TwiceOdd | une-equation-887860.py:10-11 | for a == 2 modulo 4, (1, 2, {0}) is the only level |
| TwoAdicRoots.EndlessLevels | une-equation-887860.py:27-50 | for odd a with -a % 8 == 1, the levels never run out |
| TwoAdicRoots.MissedRoot | une-equation-887860.py:6-15 | for a = 28 the fourth level yielded is (5, 32, ...), and 30 is a root modulo 32 (30^2 + 28 == 29 * 32) that it does not hold |
| EgyptianFractions.SumRemove | fractions-egyptiennes-880929.py:14-24 | the sum of the reciprocals of a set is 1/y plus the sum over the rest, whichever y is taken out |
| EgyptianFractions.SumUnion | fractions-egyptiennes-880929.py:23 | the reciprocal sum of a disjoint union is the sum of the two sums |
| EgyptianFractions.SumPositive | fractions-egyptiennes-880929.py:27-37 | a set of positive denominators has reciprocal sum 0 exactly when it is empty, and never a negative one |
| EgyptianFractions.RecipAtMost | fractions-egyptiennes-880929.py:35 | for f > 0, 1/d <= f exactly when d >= 1/f |
| EgyptianFractions.RemainderNonNegative | fractions-egyptiennes-880929.py:35-36 | every d tried is at least ceil(1/f), so f - 1/d is never negative |
| EgyptianFractions.Splits | fractions-egyptiennes-880929.py:27-37 | gen_splits in its order: the empty split for fraction 0, nothing when max_splits < 1, else the loop over d; EgyptianFractions.SplitsSound and EgyptianFractions.SplitsComplete state that these are exactly the valid splits |
| EgyptianFractions.Choices | fractions-egyptiennes-880929.py:35-37 | the for loop of gen_splits from denominator d on, each split of f - 1/d joined with d; EgyptianFractions.ChoicesSound and EgyptianFractions.ChoicesContain state them |
| EgyptianFractions.SplitsSound | fractions-egyptiennes-880929.py:27-37 | every split yielded is a set of at most s denominators in [lo, hi] whose reciprocals add up to f exactly |
| EgyptianFractions.ChoicesSound | fractions-egyptiennes-880929.py:35-37 | every split yielded by the loop from d on has at most s denominators in [d, hi] and reciprocal sum f |
| EgyptianFractions.SplitsOfZero | fractions-egyptiennes-880929.py:28-30 | gen_splits(0, ...) yields the empty set and nothing else |
| EgyptianFractions.SplitsExhausted | fractions-egyptiennes-880929.py:32-33 | with max_splits < 1 and a non-zero fraction, nothing is yielded |
| EgyptianFractions.SplitsComplete | fractions-egyptiennes-880929.py:27-37 | every set of at most s denominators in [lo, hi] with reciprocal sum f is yielded |
| EgyptianFractions.ChoicesContain | fractions-egyptiennes-880929.py:35-37 | a split of f - 1/m above m, together with m, is yielded by the loop started at any d <= m |
| EgyptianFractions.RecipDecreasing | fractions-egyptiennes-880929.py:35 | 1/d falls strictly as d grows |
| EgyptianFractions.GeneratedSplits | fractions-egyptiennes-880929.py:43-44 | the table of splits main builds from gen_splits(1/d, s, d + 1, hi) holds only Egyptian splits of 1/d into denominators above d |
| EgyptianFractions.SplitSize | fractions-egyptiennes-880929.py:43-44 | an Egyptian split of 1/d into denominators above d has at least two denominators |
| EgyptianFractions.ChildGrows | fractions-egyptiennes-880929.py:22-23 | replacing d by a disjoint split of two or more denominators gives a strictly larger set |
| EgyptianFractions.ChildSum | fractions-egyptiennes-880929.py:22-23 | replacing d by a disjoint split of 1/d keeps the reciprocal sum of the set |
| EgyptianFractions.ChildFacts | fractions-egyptiennes-880929.py:20-24 | every pushed set is non-empty with denominators in range; with genuine splits it keeps the parent's sum and has strictly more denominators |
| EgyptianFractions.Largest | fractions-egyptiennes-880929.py:15-24 | max(ds): a member of ds at least every member |
| EgyptianFractions.Ascending | fractions-egyptiennes-880929.py:19 | sorted(ds): strictly increasing, holding exactly the members of ds in range |
| EgyptianFractions.MinKey | fractions-egyptiennes-880929.py:18 | heappop takes a set with the smallest key (-len(ds), max(ds)): no set on the heap is larger, and none of equal size has a smaller maximum |
| EgyptianFractions.YieldStep | fractions-egyptiennes-880929.py:18-19 | yielding sorted(ds) adds a non-empty strictly increasing list, with ds's reciprocal sum |
| EgyptianFractions.PopStep | fractions-egyptiennes-880929.py:18 | removing the popped set keeps every other set's invariants |
| EgyptianFractions.PushStep | fractions-egyptiennes-880929.py:20-24 | pushing the children keeps every set on the heap non-empty, in range and, with genuine splits, at the same reciprocal sum |
| EgyptianFractions.Solve | fractions-egyptiennes-880929.py:14-24 | solve yields sorted(start) first, then only non-empty strictly increasing lists of denominators in range; with genuine splits every list has the start set's reciprocal sum |
| EgyptianFractions.Expand | fractions-egyptiennes-880929.py:20-24 | the pushed sets are exactly the sets ds - {d} united with split (Python's set union), for d in ds and an offered split disjoint from ds |
| ThreePoints.GetLine | 3-points-non-alignes-869501.py:31-38 | both points lie on the returned line X·col − Y·row == K; K ≥ 0, (X, Y) ≠ (0, 0) and gcd(abs(X), abs(Y), abs(K)) == 1 |
| ThreePoints.GetLineScale | 3-points-non-alignes-869501.py:31-38 | the raw triple (dx, dy, dx·b − dy·a) is a non-zero multiple of the returned triple |
| ThreePoints.LineThrough | 3-points-non-alignes-869501.py:31-38 | every primitive line through two distinct points is get_line of them or its negation |
| ThreePoints.OffOriginCanonical | 3-points-non-alignes-869501.py:34-38 | a primitive line with K > 0 through two distinct points is exactly their get_line: away from the origin the form is canonical |
| ThreePoints.CollinearOnLine | 3-points-non-alignes-869501.py:31-38 | a third point lies on get_line(p, q) exactly when it is collinear with p and q |
| ThreePoints.OriginSignClash | 3-points-non-alignes-869501.py:36-38 | three collinear pawns on a line through the origin whose pairs get the opposite triples (−2, −1, 0) and (2, 1, 0) |
| ThreePoints.SignClashInSearch | 3-points-non-alignes-869501.py:19-26 | with n = 7 the placement [1, 0, 4, 6, 0, 1, 3, 2, 2] has two pawns per column and every pawn passes the test on line 20 as written, yet pawns 2, 3 and 8 at (4, 2), (6, 3) and (2, 1) are aligned; with the corrected lines the test rejects it |
| ThreePoints.CanonicalLine | 3-points-non-alignes-869501.py:31-38 | the corrected get_line: both points on it, primitive, K ≥ 0 and, when K == 0, the first non-zero of X, Y positive |
| ThreePoints.CanonicalUnique | 3-points-non-alignes-869501.py:31-38 | every such upright primitive line through two distinct points is their corrected line, so one geometric line has one triple |
| ThreePoints.SharedLine | 3-points-non-alignes-869501.py:19-20 | for three collinear points, the corrected lines from the second and from the third to the first coincide |
| ThreePoints.Apart | 3-points-non-alignes-869501.py:10 | pawn i in column i % n and pawns[i+n] > pawns[i]: two pawns never share a square |
| ThreePoints.TripleApart | 3-points-non-alignes-869501.py:19-20 | pawns a < b < c whose corrected lines to pawn a differ are not collinear |
| ThreePoints.NewLines | 3-points-non-alignes-869501.py:19 | new_lines: the lines from the last pawn of the list to each earlier one; ThreePoints.LinesGrow states how they extend lines |
| ThreePoints.LinesGrow | 3-points-non-alignes-869501.py:19-26 | the lines through two of the first i + 1 pawns are those through two of the first i together with new_lines |
| ThreePoints.DistinctLast | 3-points-non-alignes-869501.py:19-23 | the lines of a list are distinct exactly when those of all but its last pawn are and new_lines meets none of the earlier lines |
| ThreePoints.LinesAmongPairs | 3-points-non-alignes-869501.py:11-26 | lines[i], built as the union of lines[i−1] and new_lines, is the set of get_line over all pairs among pawns 0..i−1 |
| ThreePoints.AcceptedDistinct | 3-points-non-alignes-869501.py:19-23 | accepting pawn by pawn is the same as no line from a pawn to an earlier pawn being a line among the pawns before it |
| ThreePoints.AcceptedNoThree | 3-points-non-alignes-869501.py:19-26 | with the corrected lines, an accepted placement has no three pawns on one line |
| ThreePoints.SearchStart | 3-points-non-alignes-869501.py:10-13 | the start state, all rows 0 and lines[0] empty, is a state of the search |
| ThreePoints.Backtrack | 3-points-non-alignes-869501.py:15-17 | moving back to pawn i − 1, one row down, keeps the first i − 1 pawns placed and accepted and their lines |
| ThreePoints.Reject | 3-points-non-alignes-869501.py:19-21 | a pawn whose new lines meet lines[i] would make the placement not accepted; moving it one row down keeps the state |
| ThreePoints.Accept | 3-points-non-alignes-869501.py:19-23 | a pawn whose new lines miss lines[i] is accepted, and the union of lines[i] and new_lines is the set of lines among the first i + 1 pawns |
| ThreePoints.Advance | 3-points-non-alignes-869501.py:24-26 | the next pawn starts at row 0 or just below its partner and lines[i+1] is set, which keeps the state |
| ThreePoints.Complete | 3-points-non-alignes-869501.py:14-23 | accepting the last pawn leaves a complete placement |
| ThreePoints.Solve | 3-points-non-alignes-869501.py:7-28 | a returned placement has 2n rows in [0, n), pawn i + n below pawn i, every pawn accepted and distinct lines; with the corrected lines, no three pawns aligned |
| Witches.GenSums | sorcieres-mathematiciennes-888294.py:7-16 | the partitions gen_sums(n, m) yields, in its order: nothing when m > n, else the loop's tuples then (n,); Witches.GenSumsSound, Witches.GenSumsComplete and Witches.GenSumsExactly state that these are each partition once |
| Witches.Choices | sorcieres-mathematiciennes-888294.py:12-14 | the tuples of the outer loop of gen_sums from c to n // 2, each first part followed by the partitions of the rest; Witches.ChoicesSound and Witches.ChoicesContain state them |
| Witches.GenSumsSound | sorcieres-mathematiciennes-888294.py:7-16 | every tuple gen_sums(n, m) yields is ascending, has parts at least m and sums to n |
| Witches.ChoicesSound | sorcieres-mathematiciennes-888294.py:12-14 | the loop from c on yields only tuples of two or more parts whose first part lies between c and n // 2 |
| Witches.GenSumsComplete | sorcieres-mathematiciennes-888294.py:7-16 | every ascending tuple of parts at least m summing to n is yielded |
| Witches.ChoicesContain | sorcieres-mathematiciennes-888294.py:12-14 | a first part c in [d, n // 2] followed by a tuple of gen_sums(n - c, c) is yielded by the loop from d |
| Witches.GenSumsDistinct | sorcieres-mathematiciennes-888294.py:7-16 | no tuple is yielded twice |
| Witches.GenSumsExactly | sorcieres-mathematiciennes-888294.py:7-16 | gen_sums yields each partition of n with parts at least m exactly once, and nothing when m > n |
| Witches.TotalAtLeast | sorcieres-mathematiciennes-888294.py:12 | parts at least c sum to at least c, and to at least 2c with two parts, which is why the first part stops at n // 2 |
| Witches.Product | sorcieres-mathematiciennes-888294.py:19-23 | the loop leaves p equal to the product of all the cats |
| Witches.ProdSnoc | sorcieres-mathematiciennes-888294.py:21-22 | one more factor multiplies the running product |
| Witches.Signature | sorcieres-mathematiciennes-888294.py:26-27 | the signature has max_exp + 2 entries |
| Witches.SignatureEntries | sorcieres-mathematiciennes-888294.py:26-27 | the signature is the product followed by the power sums for exponents 0 to max_exp: the number of cats, then their total |
| Witches.PowerSumZero | sorcieres-mathematiciennes-888294.py:27 | the exponent-0 power sum counts the cats |
| Witches.PowerSumOne | sorcieres-mathematiciennes-888294.py:27 | the exponent-1 power sum is the bus number the cats add up to |
| Witches.SharingMembers | sorcieres-mathematiciennes-888294.py:38-40 | the list under a signature holds exactly the tuples with that signature |
| Witches.SharingSnoc | sorcieres-mathematiciennes-888294.py:39-40 | appending a tuple extends only the list of its own signature |
| Witches.SharingEmpty | sorcieres-mathematiciennes-888294.py:38-40 | a signature no tuple has collects an empty list |
| Witches.GroupStep | sorcieres-mathematiciennes-888294.py:39-40 | one append keeps every key's list equal to the tuples so far with that signature |
| Witches.GetSolutions | sorcieres-mathematiciennes-888294.py:31-42 | the dictionary built and filtered equals the map of every signature shared by two or more partitions of bus to its partitions |
| Witches.SolutionsMeaning | sorcieres-mathematiciennes-888294.py:37-42 | a signature is a key exactly when two or more partitions of bus share it, and its value lists exactly those partitions |
| Witches.NoSolutionForOne | sorcieres-mathematiciennes-888294.py:37-42 | bus number 1 has no solution, so bisect's starting point low = 1 is refused by neither predicate |
| Witches.Bisect | sorcieres-mathematiciennes-888294.py:45-63 | a predicate true at low is refused (the assertion); otherwise, with high omitted or true and above low, a found index is above low, true there and false just before; with high omitted and a monotone predicate it is false everywhere below the index |
| Witches.FirstWith | sorcieres-mathematiciennes-888294.py:67-68 | bisect on len(get_solutions) >= need gives a bus number from 2 on with at least need solutions whose predecessor has fewer; when the count never drops below need once reached, every smaller bus number has fewer |
| Witches.Collect | sorcieres-mathematiciennes-888294.py:70-71 | the loop lists get_solutions of every bus number from min_bus up to, not including, max_bus |
| Witches.Solve | sorcieres-mathematiciennes-888294.py:66-71 | min_bus is a bus number with a solution whose predecessor has none, max_bus one with at least two whose predecessor has fewer, and the yielded maps are the solutions of each bus number in between, in order; when the counts only grow past one and two, min_bus and max_bus are the first such bus numbers |
| CubeSums.PowerSumSnoc | cubes-et-algorithme-871835.py:84 | the sum of k-th powers of a tuple grows by the k-th power of a term appended to it |
| CubeSums.Powers | cubes-et-algorithme-871835.py:11-15 | the list holds i ** k at index i for every i it covers, all of them at most n, and the next power is above n |
| CubeSums.PowersExactly | cubes-et-algorithme-871835.py:11-15 | the list is strictly increasing and i ** k <= n holds exactly for the indices of the list |
| CubeSums.FirstReaching | cubes-et-algorithme-871835.py:33 | bisect_left on the powers: the first index from i whose power times best - len(terms) reaches the remainder; every earlier one falls short |
| CubeSums.FirstAbove | cubes-et-algorithme-871835.py:34 | bisect_right on the powers: the first index from i whose power exceeds the remainder; every earlier one is at most the remainder |
| CubeSums.BisectionsSplit | cubes-et-algorithme-871835.py:33-34 | on the increasing powers, every index from bisect_left on reaches the bound and every index from bisect_right on exceeds the remainder |
| CubeSums.SeqLessIrreflexive | cubes-et-algorithme-871835.py:23 | no tuple of terms is before itself in Python's tuple order |
| CubeSums.SeqLessTransitive | cubes-et-algorithme-871835.py:23 | Python's tuple order on terms is transitive |
| CubeSums.SeqLessTotal | cubes-et-algorithme-871835.py:23 | any two different tuples of terms are ordered one way or the other |
| CubeSums.BeforeOrder | cubes-et-algorithme-871835.py:23 | the order of heap entries (cost, remainder, terms) is a strict total order, so the entry heappop returns is well defined |
| CubeSums.LeastEntry | cubes-et-algorithme-871835.py:23 | heappop returns an entry that comes before every other entry of the heap |
| CubeSums.Without | cubes-et-algorithme-871835.py:23 | removing the popped entry leaves the other entries, as a multiset |
| CubeSums.CeilingBounds | cubes-et-algorithme-871835.py:38 | the rounded-up quotient (n + power - 1) // power is at least 1, exactly 1 when the power equals the remainder and at least 2 when it is smaller |
| CubeSums.ChildSound | cubes-et-algorithme-871835.py:37-39 | a pushed entry is sound: its terms stay descending and at least 1, their powers plus the new remainder still add up to n, and its cost bounds the number of terms it needs |
| CubeSums.ChildParts | cubes-et-algorithme-871835.py:38-39 | the step of ChildSound on plain terms, remainder and cost |
| CubeSums.PushChildren | cubes-et-algorithme-871835.py:37-39 | the heap keeps its entries and gains, in order, one child for every term from min_term up to max_term |
| CubeSums.ChildrenSound | cubes-et-algorithme-871835.py:37-39 | every entry the loop pushes is sound and has at least one term |
| CubeSums.Expand | cubes-et-algorithme-871835.py:33-39 | best - len(terms) is never 0, so the division cannot fail, and every new heap entry is sound with at least one term |
| CubeSums.PopStep | cubes-et-algorithme-871835.py:23 | popping from a heap of sound entries leaves sound entries and returns a sound one |
| CubeSums.YieldStep | cubes-et-algorithme-871835.py:27-31 | yielding a popped entry with no remainder keeps the search state, with best set to its cost |
| CubeSums.FoundStep | cubes-et-algorithme-871835.py:27-30 | a yielded tuple is a decomposition of n with at most best terms, no longer than the ones yielded before |
| CubeSums.NoLonger | cubes-et-algorithme-871835.py:28-30 | the lengths of the yielded tuples never increase |
| CubeSums.ExpandStep | cubes-et-algorithme-871835.py:33-39 | replacing a popped entry by its children keeps the search state |
| CubeSums.Solve | cubes-et-algorithme-871835.py:9-39 | every yielded tuple is a descending decomposition of n into k-th powers of naturals of at least 1, with at most 9 terms, and each is no longer than the one before; best stays 9 until a decomposition is found and is then the length of the last one; the search reports itself finished exactly when the heap is empty or its least entry costs more than best |
| CubeSums.PairSums | cubes-et-algorithme-871835.py:44-51 | every key of sums is i ** k + j ** k for its pair (i, j) with 0 <= j <= i, and every such sum up to n is a key; keys lists the keys once each in insertion order |
| CubeSums.PowerSumRemove | cubes-et-algorithme-871835.py:55 | the sum of k-th powers loses the k-th power of a term removed from the tuple |
| CubeSums.PowerSumPermutation | cubes-et-algorithme-871835.py:55 | sorting does not change the sum of k-th powers: two tuples with the same multiset have the same sum |
| CubeSums.MultisetRemove | cubes-et-algorithme-871835.py:55 | removing one element from a sequence removes one copy of it from its multiset |
| CubeSums.PowerSumFour | cubes-et-algorithme-871835.py:55 | the four terms of two pairs have the sum of k-th powers of the two pair sums |
| CubeSums.Joined | cubes-et-algorithme-871835.py:55 | the four terms of the pairs for s and n - s, sorted in reverse, are four naturals whose k-th powers add up to n |
| CubeSums.FourTermsWitness | cubes-et-algorithme-871835.py:55 | a yielded result shows that n is a sum of four k-th powers |
| CubeSums.FourPowersPaired | cubes-et-algorithme-871835.py:53-55 | if n is a sum of four k-th powers, some key s of sums has n - s as a key too |
| CubeSums.PairedFour | cubes-et-algorithme-871835.py:53-55 | if s and n - s are both keys, n is a sum of four k-th powers |
| CubeSums.PairedIffFour | cubes-et-algorithme-871835.py:53-55 | some key s has its complement n - s as a key exactly when n is a sum of four k-th powers |
| CubeSums.MatchedMembers | cubes-et-algorithme-871835.py:53-54 | the keys the loop of solve2 takes are exactly the keys whose complement is a key |
| CubeSums.MatchedSnoc | cubes-et-algorithme-871835.py:53-54 | one more key is taken exactly when its complement is a key |
| CubeSums.MatchedAny | cubes-et-algorithme-871835.py:53-54 | the loop takes some key exactly when some key has its complement as a key |
| CubeSums.SortReverse | cubes-et-algorithme-871835.py:55 | sorted(..., reverse=True) returns a descending permutation of its argument |
| CubeSums.ArrangedSnoc | cubes-et-algorithme-871835.py:53-55 | appending a key and its sorted terms keeps every result paired with its key |
| CubeSums.Lookup | cubes-et-algorithme-871835.py:53-55 | the results are, in order, the four terms of the pairs of each taken key and its complement, sorted in reverse |
| CubeSums.LookupSound | cubes-et-algorithme-871835.py:53-55 | every result of the loop is four naturals, largest first, whose k-th powers add up to n |
| CubeSums.LookupAt | cubes-et-algorithme-871835.py:55 | the result for one taken key is four naturals, largest first, whose k-th powers add up to n |
| CubeSums.Solve2 | cubes-et-algorithme-871835.py:42-55 | every yielded list is four naturals, largest first, whose k-th powers add up to n, and solve2 yields something exactly when n is a sum of four k-th powers |
| GrayCodes.Gray | combien-de-dispositions-a-partir-de-n-cubes-865463.py:69-76 | the codes of the first stages: a non-empty list of codes, each of `length` positions |
| GrayCodes.GenGrayCodes | combien-de-dispositions-a-partir-de-n-cubes-865463.py:69-76 | the loop over the stages yields exactly Gray(length, length) |
| GrayCodes.GrayCount | combien-de-dispositions-a-partir-de-n-cubes-865463.py:72-76 | each stage doubles the list, so there are 2^stages codes |
| GrayCodes.GrayShape | combien-de-dispositions-a-partir-de-n-cubes-865463.py:70-76 | every code is made of 0s and 1s, and positions not yet reached by a stage hold 0 |
| GrayCodes.GrayFirst | combien-de-dispositions-a-partir-de-n-cubes-865463.py:70-71 | the first code is all zeros |
| GrayCodes.GrayAdjacent | combien-de-dispositions-a-partir-de-n-cubes-865463.py:72-76 | two consecutive codes differ in exactly one position |
| GrayCodes.GrayDistinct | combien-de-dispositions-a-partir-de-n-cubes-865463.py:72-76 | the codes are pairwise distinct |
| GrayCodes.GrayParity | combien-de-dispositions-a-partir-de-n-cubes-865463.py:72-76 | code i has an odd number of 1s exactly when i is odd |
| SteinhausJohnsonTrotter.Largest | combien-de-dispositions-a-partir-de-n-cubes-865463.py:52-55 | the scan returns a mobile index and its value, or value 0 when it found none |
| SteinhausJohnsonTrotter.LargestMeaning | combien-de-dispositions-a-partir-de-n-cubes-865463.py:52-57 | the scan finds value 0 exactly when no element is mobile, and otherwise the largest mobile value |
| SteinhausJohnsonTrotter.FindLargest | combien-de-dispositions-a-partir-de-n-cubes-865463.py:52-55 | the for loop computes the scan's result |
| SteinhausJohnsonTrotter.Move | combien-de-dispositions-a-partir-de-n-cubes-865463.py:59-66 | the swap of the mobile element with its neighbour and the reversal of the directions of larger values make the next state |
| SteinhausJohnsonTrotter.RunPermutations | combien-de-dispositions-a-partir-de-n-cubes-865463.py:44-66 | every state of the run keeps values a permutation of 1..n and directions of -1 or 1 |
| SteinhausJohnsonTrotter.ArrangementsAt | combien-de-dispositions-a-partir-de-n-cubes-865463.py:50-61 | tuple k is the input read through the positions of state k |
| SteinhausJohnsonTrotter.GenPermutations | combien-de-dispositions-a-partir-de-n-cubes-865463.py:42-66 | the yielded tuples are the arrangements of the run, and the generator finished exactly when the last state has no mobile element |
| SteinhausJohnsonTrotter.ArrangementsFirst | combien-de-dispositions-a-partir-de-n-cubes-865463.py:44-50 | the first tuple is the input itself |
| SteinhausJohnsonTrotter.ArrangementsRearrange | combien-de-dispositions-a-partir-de-n-cubes-865463.py:59-61 | every tuple is a rearrangement of the input, as a multiset |
| SteinhausJohnsonTrotter.ArrangementsAdjacent | combien-de-dispositions-a-partir-de-n-cubes-865463.py:59-61 | two consecutive tuples differ by the swap of two adjacent elements |
| SteinhausJohnsonTrotter.RunParity | combien-de-dispositions-a-partir-de-n-cubes-865463.py:59-62 | state k has an inversion count of the parity of k: the permutations alternate even and odd |
| Solids.Translations | combien-de-dispositions-a-partir-de-n-cubes-865463.py:87-90 | gen_translations yields 2 d cubes, exactly the cubes one step away from the cube along one axis |
| Solids.TranslationsDistinct | combien-de-dispositions-a-partir-de-n-cubes-865463.py:87-90 | the cubes yielded are pairwise distinct |
| Solids.AdjacentSymmetric | combien-de-dispositions-a-partir-de-n-cubes-865463.py:87-90 | if b is a neighbour of a, a is a neighbour of b |
| Solids.Minimum | combien-de-dispositions-a-partir-de-n-cubes-865463.py:32 | `min(cube[d] for cube in cubes)` is a lower bound of coordinate d that some cube reaches |
| Solids.MoveToOrigin | combien-de-dispositions-a-partir-de-n-cubes-865463.py:30-33 | the result is the cubes moved by one vector, and in every coordinate no cube is below 0 and some cube is at 0 |
| Solids.OriginUnique | combien-de-dispositions-a-partir-de-n-cubes-865463.py:30-33 | a list of cubes has a single translate at the origin |
| Solids.MoveToOriginMoved | combien-de-dispositions-a-partir-de-n-cubes-865463.py:30-33 | moving the cubes first does not change where move_to_origin puts them |
| Solids.MoveToOriginIdempotent | combien-de-dispositions-a-partir-de-n-cubes-865463.py:30-33 | cubes already at the origin are left as they are |
| Solids.EveryOther | combien-de-dispositions-a-partir-de-n-cubes-865463.py:83 | `codes[i % 2::2]` has (len - start + 1) // 2 codes, code m being codes[start + 2 m] |
| Solids.Rotations | combien-de-dispositions-a-partir-de-n-cubes-865463.py:79-84 | gen_rotations(sequence): each permutation of gen_permutations multiplied by the sign tuples codes[i % 2::2]; Solids.RotationsCount, Solids.RotationIndex and Solids.SignedPermutation state its shape |
| Solids.RotationsFrom | combien-de-dispositions-a-partir-de-n-cubes-865463.py:82-84 | the outer loop of gen_rotations from permutation i on; Solids.RotationIndex locates each of its tuples |
| Solids.RotationsCount | combien-de-dispositions-a-partir-de-n-cubes-865463.py:79-84 | gen_rotations yields 2^(n-1) signed tuples per permutation |
| Solids.RotationIndex | combien-de-dispositions-a-partir-de-n-cubes-865463.py:79-84 | rotation i 2^(n-1) + m is permutation i with the signs of code 2 m + i % 2 |
| Solids.SignedPermutation | combien-de-dispositions-a-partir-de-n-cubes-865463.py:79-84 | each rotation is a rearrangement of the coordinates with the signs of a Gray code, and the number of sign flips has the parity of the permutation, so it is a rotation and never a reflection |
| Solids.RotationsShape | combien-de-dispositions-a-partir-de-n-cubes-865463.py:79-84 | cubes of one dimension have as many rotations, each of that dimension |
| Solids.RotationsAdd | combien-de-dispositions-a-partir-de-n-cubes-865463.py:79-84 | the rotations are linear: rotation k of a + v is rotation k of a plus rotation k of v |
| Solids.CubeBelowIrreflexive | combien-de-dispositions-a-partir-de-n-cubes-865463.py:13 | no tuple is below itself in Python's order |
| Solids.CubeBelowTotal | combien-de-dispositions-a-partir-de-n-cubes-865463.py:13 | of two different tuples one is below the other in Python's order |
| Solids.CubeBelowTransitive | combien-de-dispositions-a-partir-de-n-cubes-865463.py:13 | Python's order on tuples is transitive |
| Solids.ListBelowIrreflexive | combien-de-dispositions-a-partir-de-n-cubes-865463.py:13 | no list of cubes is below itself in Python's order |
| Solids.ListBelowTotal | combien-de-dispositions-a-partir-de-n-cubes-865463.py:13 | of two different lists of cubes one is below the other in Python's order |
| Solids.ListBelowTransitive | combien-de-dispositions-a-partir-de-n-cubes-865463.py:13 | Python's order on lists of cubes is transitive |
| Solids.SortCubes | combien-de-dispositions-a-partir-de-n-cubes-865463.py:13 | `sorted` of a set of cubes is strictly ascending and holds exactly its cubes |
| Solids.AscendingUnique | combien-de-dispositions-a-partir-de-n-cubes-865463.py:13 | two strictly ascending lists of the same cubes are equal, so `sorted` depends only on the set |
| Solids.Least | combien-de-dispositions-a-partir-de-n-cubes-865463.py:13 | `min` returns one of the lists, below or equal to each of the others |
| Solids.LeastUnique | combien-de-dispositions-a-partir-de-n-cubes-865463.py:13 | a list of the candidates below or equal to all of them is the one min returns |
| Solids.Avatars | combien-de-dispositions-a-partir-de-n-cubes-865463.py:25-28 | one avatar per rotation, at least one: rotation k of every cube, moved to the origin |
| Solids.MakeSolid | combien-de-dispositions-a-partir-de-n-cubes-865463.py:10-14 | the cubes of the solid are sorted, at the origin, the set of one avatar, and the least of the sorted avatars; number_of_permutations is at least 1 |
| Solids.RotatedMoved | combien-de-dispositions-a-partir-de-n-cubes-865463.py:25-28 | rotating moved cubes gives the rotated cubes moved by the rotated vector |
| Solids.SolidMoved | combien-de-dispositions-a-partir-de-n-cubes-865463.py:10-33 | moving all cubes by one vector gives the same Solid |
| Solids.MoveToOriginMembers | combien-de-dispositions-a-partir-de-n-cubes-865463.py:30-33 | the set of cubes after move_to_origin depends only on the set before |
| Solids.SolidMembers | combien-de-dispositions-a-partir-de-n-cubes-865463.py:10-14 | the cubes of a Solid depend only on the set of cubes it is given, not on their order or repeats |
| Solids.ExtensionsMembers | combien-de-dispositions-a-partir-de-n-cubes-865463.py:35-39 | add_cube tries exactly the lists of the solid's cubes followed by one cube that is not among them and is next to one of them |
| Solids.ExtendsDimension | combien-de-dispositions-a-partir-de-n-cubes-865463.py:35-39 | every tried list is non-empty and of the solid's dimension |
| Solids.AddCube | combien-de-dispositions-a-partir-de-n-cubes-865463.py:35-39 | one Solid per tried list, in order, each built from a list that grows the solid by one adjacent new cube |
| Solids.Equal | combien-de-dispositions-a-partir-de-n-cubes-865463.py:16-17 | Solid.__eq__: other is a solid, not None, with the same cubes; Solids.SameSolid states when two solids are equal |
| Solids.NotEqual | combien-de-dispositions-a-partir-de-n-cubes-865463.py:19-20 | Solid.__ne__, the negation of __eq__ |
| Solids.Hash | combien-de-dispositions-a-partir-de-n-cubes-865463.py:22-23 | Solid.__hash__, the hash of the cubes for a given hash of tuples; Solids.SameSolid states that equal solids hash alike |
| Solids.SameSolid | combien-de-dispositions-a-partir-de-n-cubes-865463.py:16-23 | cubes moved or listed in another order give solids that are equal, not unequal, and hash alike, so main's set keeps one of them |

## Left out

- Console input and output: `RealPlayer`, every `input` and `print`, and the reporting part of `main` in the card game.
- The random draws are parameters or nondeterministic choices, not a random number generator.
- `flight_with_acc` in the letter-run script is not modelled. The script itself leaves it out of the implementations it checks.
- The timing, profiling and message-generation code of the letter-run script (lines 184-236, apart from `validate`) is not modelled.
- TheoreticalStrategy.TheoreticalPlayer.FindCard: the order in which Python iterates the set of all permutations is a parameter `pool`, assumed to list each permutation once.
- TheoreticalStrategy.TheoreticalPlayer.GuessACard: requires a non-empty set of permutations. With an empty set the source's `random.choice` raises, and that error is not modelled. The set is never empty when the engine answers, because the engine's permutations always remain.
- SimulatedStrategy.SimulatedPlayer.GuessACard: requires at least one prefix, for the same reason.
- CardEngine.GetPermutations: requires t >= 1. With t == 0 the shuffled list of pairs is empty, and unpacking `zip(*temp)` into two names raises ValueError (trouver-un-seul-numero-887480.py:65); that error is not modelled.
- The ratio `count / comb(2n, n)` that `main` of the expectation script prints is a float and is not modelled; the exact difference it prints is (`Expectation.SolveClosedForm`).
- FermatSeries.FirstEquations: proves the near miss a^3 + b^3 == c^3 + d for the first eight indices only. The general identity needs an order-ten recurrence for the cubes and is not proved.
- FermatSeries.Series: requires at least three seeds. With fewer, the source yields the seeds and then fails to unpack `start[-3:]`; that failure is not modelled.
- Minesweeper.Walk: runs at most `fuel` steps. The source's loop has no bound, and whether it always stops is not modelled. The enumeration of all start columns in `solve` and the drawing in `show_grid` only print and are left out.
- The drawing function `show` of the switch network prints only and is left out.
- ResidueSieve.Sieve: proves that the final modulus is a common multiple of 3, 5, ..., 19, not that it is the least one.
- The prints of the sieve's progress and results (`min`, `len`, the first twenty sorted times) are left out.
- SubsetSum.HasSum: requires positive tokens and a positive target, as main uses it. For other inputs the pruning at the target can hide sums, and that behaviour is not modelled.
- SubsetSum.DrawRatio: returns the numerator and denominator rather than the reduced `Fraction`.
- DigitSquares.SumDigits: requires a base of at least 2 and a natural n. With base 1 or a negative n the source loops forever, and with base 0 it raises; none of that is modelled.
- The graph drawing in `main` of the digit-square script is left out; it only displays the nodes `get_nodes` returns.
- SignedSums.Suite and SignedSums.Suite2 stop with None when the given throws run out; the source keeps throwing for ever.
- The histograms of `test` in the signed-sum script only display results and are left out.
- Couples.ISqrt: the float square root `int(x ** .5)` is taken as the exact integer square root; the two can differ only where the float rounds, far beyond the numbers the script reaches.
- PrimePowers.GenPrimePowers: the binary heap of `heapq` is a list searched for its smallest entry; only its head is ever read, so the order of the other entries is not modelled.
- PrimeSieve.GenPrimes, PrimePowers.GenPrimePowers, Couples.SolveBruteForce and Couples.Solve: the infinite generators run up to a limit and return lists; laziness and `islice` are not modelled.
- Couples.FindY: the order in which find_y yields is not modelled, only the set of its results; solve sorts them anyway.
- The printing of `verify` and `main` in the couples script is left out; `Couples.Verify` states the comparison `verify` makes.
- Decomposition.Solve: runs the loop at most `fuel` times and returns None when the fuel runs out; the source loops until the product stops growing, and whether it always stops is not modelled.
- PowerDifference.Solve: runs the loop at most `fuel` times; whether the two cursors always meet is not modelled, only that every solution has been yielded when they do.
- PowerfulNumbers.GenPowerful: runs the outer loop for b3 up to `top` and returns the list; the source's generator runs for ever. Its binary heap is a list searched for its least entry, which is the entry heappop returns; the layout of the other entries is not modelled.
- The search for differences in `main` of the powerful-number script only prints and is left out.
- TwoAdicRoots.FindRoots and TwoAdicRoots.OddRoots: return the first `count` levels as a list; the source's generator is lazy and, when -a % 8 == 1, endless.
- TwoAdicRoots.FindRoots: for even a the levels hold the roots of the odd part scaled by 2^(t/2), not every root modulo 2^k as the docstring on line 7 says: for a = 28 the level (5, 32) holds 2, 6, 10 and 14 but not the roots 18, 22, 26 and 30 (TwoAdicRoots.MissedRoot), and for a = 8 the level (3, 8, {0}) misses 4. The model follows the code, so only soundness (TwoAdicRoots.YieldsSound) is proved for even a.
- TwoAdicRoots.FindRoots: requires a != 0. For a == 0 the source computes a negative shift count and raises; that failure is not modelled.
- The loop over Python's set in the lifting step takes the roots in any order (`:|`); the resulting set does not depend on it.
- The `main` of the two-adic script (the prints, the `log2` lists and the plot) is left out.
- Fractions are exact rationals, as Python's `Fraction` is; the model uses Dafny's `real`, whose values built from integers by `+`, `-` and `/` are exactly those rationals.
- EgyptianFractions.Splits: requires lo >= 1. With lo <= 0 and a negative fraction the source would try the denominator 0 and raise; that failure is not modelled. gen_splits' laziness is not modelled, only the list of its yields in order.
- EgyptianFractions.Solve: yields at most `fuel` lists; the source runs until the heap is empty. A bound `top` on every denominator is a parameter, required of the start set and of every offered split, so that max(ds) is defined (non-empty splits) and computed by a scan.
- EgyptianFractions.Solve: among sets with equal keys, heapq breaks the tie by comparing the frozensets; the model takes the first such set on its list instead. The layout of heapq's binary heap is not modelled.
- EgyptianFractions.Expand: Python iterates the sets ds and splits[d] in an order of its own; the model takes their members in any order (`:|`). The sets pushed are the same.
- The `main` of the Egyptian-fraction script (printing the longest lists) is left out, and so are PRIMES and gen_primes_under, which nothing uses; the primes module is not part of this model.
- ThreePoints.Solve: runs at most `fuel` rounds of the loop and then returns Unfinished; the source runs until it places every pawn, and whether it always does is not proved.
- ThreePoints.Solve: returns Exhausted when pawn 0 runs off the grid. The source then goes on with i == −1, indexing its lists from the end; that path is not modelled.
- ThreePoints.Solve: the entries of `lines` not yet computed are None in the source and the empty set in the model; neither is read before it is set.
- ThreePoints.Solve: `fixed` selects the line triples. With `fixed` false the search uses get_line as written; with `fixed` true it uses the corrected triples of the finding below, and only then is no three aligned proved.
- `show_grid` and `main` of the no-three-in-line script only print and are left out.
- Witches.GetSolutions: the cache on get_solutions only saves recomputation; the model recomputes.
- Witches.GenSums: requires m >= 1. With m <= 0 the source recurses on gen_sums(n - c, c) with c <= 0 and does not terminate; solve only calls it with m = 1.
- Witches.Bisect: runs at most `fuel` doubling rounds and then returns Unbounded; the source doubles until the predicate holds. With low <= 0 the doubling never rises above low, and the model returns Unbounded there too.
- Witches.Bisect: the source assumes, without checking, that the predicate is false below the index and true from it on; the model proves "false everywhere below" only under Monotone, and the two predicates of solve are not proved monotone.
- Witches.Solve: yields the maps one at a time in the source; the model returns them as one list. The printing in the main block is not modelled.
- Witches.Solve and Witches.FirstWith: min_bus and max_bus are proved to be the first bus numbers with one and two solutions only under CountMonotone, the assumption bisect makes; that the number of solutions only grows with the bus number is not proved, so without it they are only bus numbers where the count reaches one and two.
- Witches.Signature: the source's default max_exp = 2 is not a default in the model; callers pass it.
- CubeSums.Solve: runs at most `fuel` pops and reports whether the search ended (`finished`); the source runs until the heap is empty or an entry costs more than best. Only soundness of what it yields is proved: that it yields every shortest decomposition is not.
- CubeSums.Expand: the float division in bisect_left(powers, n/(best - len(terms))) is taken as the exact condition power * (best - len(terms)) >= remainder; the two differ only where the float rounds.
- CubeSums.FirstReaching and CubeSums.FirstAbove: bisect is modelled by the first index it returns, found by a scan; the binary search itself is not modelled.
- CubeSums.LeastEntry: the binary heap of `heapq` is a list searched for its least entry, which is the entry heappop returns; the layout of the other entries is not modelled.
- CubeSums.Powers, CubeSums.Solve, CubeSums.PairSums and CubeSums.Solve2: require k >= 1 or n <= 0, the inputs on which the source stops. With k == 0 every power is 1 (0 ** 0 included), so while n >= 1 the loop building the powers in solve and the outer loop building the sums in solve2 never end; with k == 0 and n <= 0 both loops stop at once, and the model covers that case (no powers, no sums, nothing yielded unless n == 0 in solve).
- CubeSums.Solve2: the dictionary's iteration order is the insertion order, kept in `keys`; the generator's yields are returned as one list, and the print of len(sums) is left out.
- `solve3` of the cube-sum script is not modelled: it takes a float cube root for its bound and only prints and yields candidates for k == 3; `main` reads its input from the console and prints.
- SteinhausJohnsonTrotter.GenPermutations: runs at most `fuel` steps and reports whether the run ended (`finished`). That the run ends after exactly n! tuples when the fuel is at least n! - 1, and that the tuples are pairwise distinct, is not proved; the properties proved are those of each tuple and of consecutive tuples.
- Solids.RotationsCount: counts the rotations per permutation that gen_permutations yields; since the n! count of those permutations is not proved, neither is the total n! 2^(n-1), nor that every rotation of the cube appears.
- Solids.MakeSolid: that two solids differing by a rotation get the same cubes is not proved, because it rests on gen_rotations yielding every rotation, which rests on the n! count above. Translation, order and repeats are proved not to matter (Solids.SolidMoved, Solids.SolidMembers). That the cubes keep their number, and the exact value of number_of_permutations, are not proved; only that it is at least 1.
- Solids.MakeSolid and Solids.AddCube: require a non-empty list of cubes of one dimension, as main builds them. On an empty list the source fails in min and move_to_origin; that failure is not modelled.
- Solids.Rotations: takes the `fuel` of gen_permutations; with too little fuel fewer rotations are yielded.
- Solids.Equal: `other and ...` is true for every Solid, since a Solid defines no truth value; None is the only false `other`, and an Option stands for it.
- Solids.Hash: Python's hash of a tuple is a parameter function; only that equal cubes give equal hashes is stated.
- The `main` of the polycube script, which gathers the solids of each size in sets, sums factorial(n) // number_of_permutations and prints timings, is left out; Solids.SameSolid states what its sets rely on.

## Findings

| source | as written | input that shows it | evidently intended | confidence | as-written member | corrected member |
|---|---|---|---|---|---|---|
| 3-points-non-alignes-869501.py:36-38 | for a line through the origin (K == 0) the sign of (X, Y) is left as the pair gives it, so one line gets two opposite triples | n = 7, placement [1, 0, 4, 6, 0, 1, 3, 2, 2]: pawn 2 at (4, 2), pawn 3 at (6, 3) and pawn 8 at (2, 1) are aligned, but the pair of pawns 3 and 2 gives (−2, −1, 0) while the pairs of pawn 8 with pawns 2 and 3 give (2, 1, 0), so the test on line 20 accepts pawn 8, as it accepts each earlier pawn | one triple per line, with the sign of (X, Y) fixed when K == 0, so that solve never accepts three aligned pawns | not executed | ThreePoints.SignClashInSearch | ThreePoints.CanonicalLine |
