# Sage combinatorial and arithmetic cores, modelled in Dafny

This project models several sequential cores of the Sage mathematics
library and proves properties of them. Each core is one Dafny module,
written in the form its Python source takes: pure recursion and
expressions become functions and lemmas, and loops that update state
become methods with loop invariants. Each method is proved equal to a
specification function, and the lemmas are stated about that function.

- `OmFrame` (`frame.dfy`), with `NewtonPolygon` and `Polynomials`: a node of
  an OM tree used to factor polynomials over local fields. It covers:
  - the ramification index E, the inertia degree F and the depth along the
    path from the root;
  - `find_psi`, which pushes a target valuation up the parent chain;
  - the phi-expansion of Phi done by `seed`;
  - the higher-order Newton polygon: a monotone-chain lower convex hull that
    keeps collinear points, whose equal-slope edges are merged into segments,
    with an infinite-slope first segment when phi divides Phi;
  - the loop control of `single_factor_lift`.
- `SkewTableaux`, `SkewRestriction`, `JeuDeTaquin`, `SwitchRows`,
  `BenderKnuth` and `BenderKnuthTableaux`: skew tableaux are rows of
  optional entries, where None marks the cells of the inner shape. They
  cover:
  - shapes, weight, the semistandard, standard and ribbon tests;
  - conjugation, the `expr` form, `to_tableau` and the reading permutation;
  - restriction and chains;
  - the jeu-de-taquin `slide` and `rectify`;
  - the Bender–Knuth switches and involution.
- `BadShape`: tableaux of arbitrary shape, as dictionaries from cells to
  entries, with their filters and transposition.
- `Oscillating` (with `Partitions`): oscillating tableaux are sequences of
  partitions in which each step adds or removes one box. The module covers:
  - construction from words and from partitions;
  - validation, words and descents;
  - the local rule;
  - crossing and nesting numbers.
- `GitBlob` (with `PyStrings`): the git loose-object parser of the Sage
  package manager. It covers the `type size\0content` header, the dispatch
  on the object type, and tree entries with their hex-encoded SHA-1s.
- `JacobiIndices`: the Fourier-expansion indices of classical Jacobi forms,
  in reduced and full mode.
- `Citation`: the parsers that turn cProfile and gperftools output into
  dotted function names.
- `Isogeny`: Weierstrass coefficient changes, and Vélu's codomain formulas
  for the isogeny with a given kernel polynomial. Field elements are exact
  reals.
- `TQSystem`: T-systems and Q-systems. It covers:
  - the boundary cases of the generators;
  - the two Jacobi–Trudy matrix layouts;
  - the index arithmetic of the recurrences;
  - the loop that keeps Q-system products square-free.
- `OmpHopf` and `OmpSymmetric`: the Hopf algebras of ordered multiset
  partitions into sets. They cover:
  - normalisation of the parent's arguments;
  - the grading, the product and commutativity;
  - the change of basis between the dual powersum and monomial bases, by
    descent factoring and gluing;
  - the symmetry test.
- `PoissonVertex`: the nested-dictionary arithmetic of elements of a
  quotient Poisson vertex algebra, and `partmultiply` on partitions.
- `Magmas`: the Cayley-graph successor function of a finitely generated
  magma, and the right ideal its iteration enumerates.
- `Outcomes`: the result type. It carries the Python exception each modelled
  operation raises.

Python's floor division, negative indexing, Python 2 byte strings and
Python 2 comparisons are written out where the source relies on them.

## Model

| member | source | states |
|---|---|---|
| BadShape.FilterByCells | src/sage/combinat/tableaux/bad_shape_tableau.py:73-90 | the result holds exactly the cells of the tableau whose coordinates satisfy the predicate, with their entries |
| BadShape.FilterByValues | src/sage/combinat/tableaux/bad_shape_tableau.py:92-108 | the result holds exactly the cells whose entry satisfies the predicate, with their entries |
| BadShape.FilterByCellsSplits | src/sage/combinat/tableaux/bad_shape_tableau.py:88-90 | the cells a filter by cells keeps and the cells it drops are disjoint and together make up the tableau |
| BadShape.FilterByValuesSplits | src/sage/combinat/tableaux/bad_shape_tableau.py:106-108 | the same split for a filter by values |
| BadShape.FilterIdempotent | src/sage/combinat/tableaux/bad_shape_tableau.py:73-108 | filtering twice by the same predicate changes nothing more, and a filter by cells and a filter by values commute |
| BadShape.Transposed | src/sage/combinat/tableaux/bad_shape_tableau.py:110-124 | conjugation as the docstring describes it: cell (x, y) of the result carries the entry of cell (y, x), and it has no other cells |
| BadShape.TransposedInvolution | src/sage/combinat/tableaux/bad_shape_tableau.py:110-124 | conjugating twice gives the tableau back |
| BadShape.TransposedFilterByValues | src/sage/combinat/tableaux/bad_shape_tableau.py:92-124 | conjugation commutes with a filter by values |
| BadShape.TransposedFilterByCells | src/sage/combinat/tableaux/bad_shape_tableau.py:73-124 | conjugating a filter by cells is filtering the conjugate by the mirrored predicate |
| BadShape.ConjugateAsWritten | src/sage/combinat/tableaux/bad_shape_tableau.py:123 | the code as written iterates over the dictionary's keys and unpacks each key pair as (k, v): the result is a TypeError for every non-empty tableau, the empty tableau for the empty one |
| BadShape.ConjugateAsWrittenFails | src/sage/combinat/tableaux/bad_shape_tableau.py:123 | the code as written agrees with the documented conjugate only on the empty tableau |
| BadShape.ConjugateOneCell | src/sage/combinat/tableaux/bad_shape_tableau.py:123 | for {(0, 1): 5} the documented conjugate is {(1, 0): 5} while the code as written raises TypeError |
| Magmas.LeftProducts | src/sage/categories/finitely_generated_magmas.py:85 | the i-th element is generator i times x, one per generator |
| Magmas.RightProducts | src/sage/categories/finitely_generated_magmas.py:86 | the i-th element is x times generator i, one per generator |
| Magmas.SuccGenerators | src/sage/categories/finitely_generated_magmas.py:58-89 | the successors of x for side "left", "right" and "twosided", and none for any other side |
| Magmas.TwosidedIsLeftThenRight | src/sage/categories/finitely_generated_magmas.py:85-88 | the two-sided successors are the left ones followed by the right ones |
| Magmas.Round | src/sage/categories/finitely_generated_magmas.py:131-132 | one round of the transitive ideal keeps everything reached so far |
| Magmas.Within | src/sage/categories/finitely_generated_magmas.py:90-132 | the transitive ideal of the successor function cut after n rounds contains its seeds |
| Magmas.RightSuccessor | src/sage/categories/finitely_generated_magmas.py:86-88 | x times any generator is a right successor of any reached x |
| Magmas.RightPredecessor | src/sage/categories/finitely_generated_magmas.py:86-88 | every right successor is a reached element times a generator, and the lemma returns both |
| Magmas.WithinMonotone | src/sage/categories/finitely_generated_magmas.py:131-132 | a later round of the ideal holds everything an earlier one does |
| Magmas.ElementsAreProducts | src/sage/categories/finitely_generated_magmas.py:134-150 | every element that `__iter__` reaches within n rounds is the left-nested product of a word of at most n + 1 generators (the word is returned) |
| Magmas.ProductsAreElements | src/sage/categories/finitely_generated_magmas.py:134-150 | conversely every product of a word of at most n + 1 generators is reached within n rounds |
| Citation.FileKey | src/sage/misc/citation.py:310-319 | for a key whose file is not "~", the module is the part of the path after its last "site-packages/", up to its first dot, with slashes turned into dots; the result is module + "." + name, or the name alone when that part is empty |
| Citation.MethodKeyParts | src/sage/misc/citation.py:299-306 | the object and method names read out of `<method 'f' of 'o' objects>` are exactly o and f when neither holds a quote and f holds no space |
| Citation.MethodKey | src/sage/misc/citation.py:298-317 | such a builtin-method key with a non-empty class name becomes "o.f" |
| Citation.OtherTildeKey | src/sage/misc/citation.py:307-309 | any other "~" key loses its first and last characters and gets no module prefix |
| Citation.PosixExample | src/sage/misc/citation.py:295-296 | the documented key ('~', 0, "<posix.WIFEXITED>") gives "posix.WIFEXITED" |
| Citation.ReSplit | src/sage/misc/citation.py:341 | the regular-expression split on `_[0123456789]+` returns at least one piece |
| Citation.ReSplitPieces | src/sage/misc/citation.py:341 | no piece of the split holds a match, and no piece after the first starts with a digit (the match took the whole digit run) |
| Citation.ReSplitUnfold | src/sage/misc/citation.py:341 | the split cuts at the leftmost match and carries on after its longest digit run |
| Citation.ReSplitHead | src/sage/misc/citation.py:341 | the first piece is the text before the first match |
| Citation.ReSplitCons | src/sage/misc/citation.py:341 | a string that starts with a match-free piece, an underscore and a full digit run splits into that piece followed by the split of the rest |
| Citation.ReSplitWhole | src/sage/misc/citation.py:341 | a string without a match is a single piece |
| Citation.JoinNoMatch | src/sage/misc/citation.py:344 | joining match-free pieces with dots creates no match |
| Citation.ReSplitFive | src/sage/misc/citation.py:341 | five pieces separated by numbered underscores split back into exactly those five pieces |
| Citation.PyxNameOfPieces | src/sage/misc/citation.py:344 | the name of such a symbol is its last four pieces joined with dots |
| Citation.PyxNameDocumented | src/sage/misc/citation.py:338-339 | the first `__pyx` symbol of the documented report gives 'sage.structure.parent_old.Parent__generic_convert_map' |
| Citation.PyxNameCoerceMaps | src/sage/misc/citation.py:338-339 | the second `__pyx` symbol of the documented report gives 'sage.structure.coerce_maps.DefaultConvertMap_unique__call_' |
| Citation.PyxNameCoerce | src/sage/misc/citation.py:338-339 | the third `__pyx` symbol of the documented report gives 'sage.structure.coerce.CoercionModel_cache_maps_bin_op' |
| Citation.LastWords | src/sage/misc/citation.py:342 | one last word per line, each the last whitespace-separated word of the right-stripped line; a line with no word makes the comprehension raise IndexError |
| Citation.GperftoolsTopToFunctions | src/sage/misc/citation.py:322-346 | `_gperftools_top_to_functions` fails exactly when some line of the report is blank |
| Citation.PyxNamesShape | src/sage/misc/citation.py:344-346 | one name per `__pyx` token, and no returned name holds an underscore followed by a digit |
| Citation.PyxNamesConcat | src/sage/misc/citation.py:344-346 | tokens not starting with `__pyx` are dropped and the others are kept in order, so the names of a concatenation are the concatenation of the names |
| PyStrings.Find | src/sage/misc/citation.py:300-305 | `str.find`: -1 when the pattern does not occur at or after start, otherwise an occurrence with none before it |
| PyStrings.FindIs | src/sage/misc/citation.py:300-305 | the first occurrence at or after start is what `find` returns |
| PyStrings.Slice | src/sage/misc/citation.py:302-309 | slicing with Python's negative indices and clamping |
| PyStrings.Split | src/sage/misc/citation.py:311-313 | `str.split(sep)` returns at least one piece |
| PyStrings.JoinSplit | src/sage/misc/citation.py:311-313 | joining the pieces of a split with the separator gives the string back |
| PyStrings.SplitPiecesAvoid | src/sage/misc/citation.py:311-313 | no piece of a split contains the separator |
| PyStrings.ReplaceChar | src/sage/misc/citation.py:313 | `replace` of one character replaces every occurrence and nothing else |
| PyStrings.RStrip | src/sage/misc/citation.py:342 | `rstrip` removes exactly the trailing whitespace |
| PyStrings.Words | src/sage/misc/citation.py:342 | `split()` gives non-empty runs of non-space characters, and none exactly when the string is all whitespace |
| PyStrings.SplitLines | src/sage/misc/citation.py:342 | no line returned by `splitlines` holds a line break |
| PyStrings.SplitLinesJoin | src/sage/misc/citation.py:342 | splitting non-empty break-free lines joined by newlines gives them back |
| PyStrings.Decimal | build/manager/sage_pkg/git/blob.py:40 | the decimal rendering of a size: digits only, with no leading zero |
| PyStrings.DecimalRoundTrip | build/manager/sage_pkg/git/blob.py:40 | reading the decimal rendering of n gives n back |
| GitBlob.MatchHeader | build/manager/sage_pkg/git/blob.py:13-24 | a match of `BLOB_RE` splits the bytes into a lower-case type, a space, a digit run, a NUL byte and the content |
| GitBlob.MatchHeaderComplete | build/manager/sage_pkg/git/blob.py:13-24 | every string of that shape matches, with exactly its parts as groups |
| GitBlob.ParseSize | build/manager/sage_pkg/git/blob.py:40 | `int(size)` refuses exactly the empty digit run and otherwise reads the digits in base 10 |
| GitBlob.KindOfNamed | build/manager/sage_pkg/git/blob.py:27-32 | bytes that start with a type name select the class of that type |
| GitBlob.Load | build/manager/sage_pkg/git/blob.py:18-41 | `Blob`: "file is not a git object" when the header does not match, "unsupported blob" when no type prefix is recognised, otherwise an object whose class matches the leading bytes and whose type and content are the groups of the match |
| GitBlob.LoadRender | build/manager/sage_pkg/git/blob.py:18-41 | loading an object file written as type, space, decimal size, NUL and content gives back that kind, type, size and content |
| GitBlob.EmptySizeRefused | build/manager/sage_pkg/git/blob.py:13-40 | an empty size group passes `BLOB_RE` but the constructor's `int('')` fails |
| GitBlob.StrippedAway | build/manager/sage_pkg/git/blob.py:46-48 | a line that right-strips to nothing is blank |
| GitBlob.ReprLines | build/manager/sage_pkg/git/blob.py:45-48 | every repr line is indented by four spaces, there are no more of them than content lines, and they hold no line break when the content lines hold none |
| GitBlob.ReprReadsBack | build/manager/sage_pkg/git/blob.py:43-49 | the repr splits back into the class name line followed by the repr lines of the content |
| GitBlob.TreeOf | build/manager/sage_pkg/git/blob.py:54-70 | `BlobCommit.tree` is 40 hexadecimal digits that follow "tree " at the start of the content, and a failed match is an AttributeError on None |
| GitBlob.TreeOfCommit | build/manager/sage_pkg/git/blob.py:69-70 | a commit that starts with "tree " and a 40-digit sha1 names that sha1 |
| GitBlob.TreeOfRefused | build/manager/sage_pkg/git/blob.py:69-70 | content that is too short, does not start with "tree " or has a non-hexadecimal digit among the 40 raises AttributeError |
| GitBlob.Hex | build/manager/sage_pkg/git/blob.py:100 | two hexadecimal digits per byte |
| GitBlob.UnhexHex | build/manager/sage_pkg/git/blob.py:100 | the hexadecimal rendering of the binary sha1 is all hexadecimal digits and reads back as the bytes |
| GitBlob.Listing | build/manager/sage_pkg/git/blob.py:93-102 | the generator yields at most the requested number of entries, and all of them when it has not stopped |
| GitBlob.Ls | build/manager/sage_pkg/git/blob.py:79-102 | the loop of `ls` yields exactly the listing: the same entries and the same stop |
| GitBlob.LsEncoded | build/manager/sage_pkg/git/blob.py:93-102 | over a tree object written from well-formed entries, `ls` yields every entry in order and then stops |
| GitBlob.LsNeverStops | build/manager/sage_pkg/git/blob.py:93-102 | content longer than 20 bytes with no NUL byte keeps sending `pos` back to 20, so the generator never stops; such malformed tree content is outside what `ls` is meant for, and the model records the behaviour rather than correcting it |
| GitBlob.Dirs | build/manager/sage_pkg/git/blob.py:136-138 | the kept entries are exactly the listed ones whose mode is '40000' |
| GitBlob.DirsConcat | build/manager/sage_pkg/git/blob.py:136-138 | filtering keeps the order of the listing |
| GitBlob.LsDirs | build/manager/sage_pkg/git/blob.py:122-138 | `ls_dirs` keeps exactly the directory entries of `ls` and stops when it stops |
| GitBlob.SubTrees | build/manager/sage_pkg/git/blob.py:122-138 | the loop of `ls_dirs` yields exactly that filtered listing |
| GitBlob.GetFinds | build/manager/sage_pkg/git/blob.py:140-157 | `get` returns a sha1 exactly when some listed entry has the name, and its only error is "file is not in the tree" |
| GitBlob.FindNamed | build/manager/sage_pkg/git/blob.py:154-156 | the search loop stops at the first entry of the name |
| GitBlob.FirstNamedAt | build/manager/sage_pkg/git/blob.py:154-156 | the first entry of the name is the one with no earlier entry of that name |
| GitBlob.LookUp | build/manager/sage_pkg/git/blob.py:140-157 | the loop of `get` returns what `get` specifies: the sha1 of the first entry of the name, or the ValueError |
| GitBlob.GetEncoded | build/manager/sage_pkg/git/blob.py:140-157 | in a tree written from well-formed entries, `get` returns the sha1 of the first entry of that name, and reports a missing name with the ValueError |
| GitBlob.PadLeft | build/manager/sage_pkg/git/blob.py:119 | `'{0:>6}'` right-aligns in a field of six: spaces in front, the string at the end, and no truncation |
| GitBlob.TreeReprReadsBack | build/manager/sage_pkg/git/blob.py:104-120 | when no mode or name holds a line break, the tree repr splits back into "BlobTree:" and one line per entry |
| JacobiIndices.Isqrt | src/sage/modular/jacobi/classical.py:68-88 | `isqrt(x)` is the largest r with r * r <= x |
| JacobiIndices.BelowIsqrt | src/sage/modular/jacobi/classical.py:68-79 | r lies at or below `isqrt(x)` exactly when r * r <= x |
| JacobiIndices.IsSquareIff | src/sage/modular/jacobi/classical.py:87-88 | when x is r squared, `x.is_square()` holds and `isqrt(x)` is r |
| JacobiIndices.FourMN | src/sage/modular/jacobi/classical.py:63-68 | 4mn is at least 4 for positive m and n, so `isqrt(fm * n - 1)` never sees a negative argument in the positive definite loops |
| JacobiIndices.ReducedAsWritten | src/sage/modular/jacobi/classical.py:65-74 | the reduced generator as written raises exactly when prec == 0, because the bound of the indefinite loop calls `isqrt(-4m)` |
| JacobiIndices.ReducedAsWrittenCounterexample | src/sage/modular/jacobi/classical.py:72-85 | for m = 1, prec = 0 the reduced generator raises while the full one yields nothing |
| JacobiIndices.ReducedRowsMembers | src/sage/modular/jacobi/classical.py:66-69 | the positive definite part of the reduced generator yields exactly the (n, r) with 1 <= n < prec, 0 <= r <= m and r^2 < 4mn |
| JacobiIndices.ReducedSquaresMembers | src/sage/modular/jacobi/classical.py:71-74 | the indefinite loop over r yields exactly the (n, r) in its range with r^2 == 4mn |
| JacobiIndices.DivisionByFourM | src/sage/modular/jacobi/classical.py:73-74 | `fm.divides(r**2)` and n == r^2 // fm together mean exactly r^2 == 4mn |
| JacobiIndices.SquareCase | src/sage/modular/jacobi/classical.py:72 | an indefinite index has n >= 0, and r^2 <= 4m(prec - 1) exactly when n < prec |
| JacobiIndices.ReducedMembers | src/sage/modular/jacobi/classical.py:38-74 | the reduced indices are exactly the (n, r) with 0 <= n < prec, 0 <= r <= m and 4mn - r^2 >= 0 |
| JacobiIndices.PlusMinusMembers | src/sage/modular/jacobi/classical.py:79-81 | the inner loop yields (n, r) and (n, -r) for exactly the r of its range |
| JacobiIndices.FullRowsMembers | src/sage/modular/jacobi/classical.py:76-81 | the positive definite part of the full generator yields exactly the (n, r) with 1 <= n < prec and r^2 < 4mn |
| JacobiIndices.SquareRootsMembers | src/sage/modular/jacobi/classical.py:87-90 | for one n the square test yields exactly the (n, r) with r^2 == 4mn |
| JacobiIndices.FullSquaresMembers | src/sage/modular/jacobi/classical.py:86-90 | the indefinite loop yields exactly the (n, r) with 1 <= n < prec and r^2 == 4mn |
| JacobiIndices.FullMembers | src/sage/modular/jacobi/classical.py:38-92 | the full indices are exactly the (n, r) with 0 <= n < prec and 4mn - r^2 >= 0 |
| JacobiIndices.Discriminant | src/sage/modular/jacobi/classical.py:38-92 | every index generated in either mode has a non-negative discriminant 4mn - r^2 |
| JacobiIndices.ReducedInFull | src/sage/modular/jacobi/classical.py:48-49 | the reduced indices are the full ones with 0 <= r <= m, as the documentation of `reduced` says |
| JacobiIndices.DocumentedReduced | src/sage/modular/jacobi/classical.py:57-59 | the documented reduced list for m = 2, prec = 3, in its order |
| JacobiIndices.DocumentedFull | src/sage/modular/jacobi/classical.py:60-61 | the documented full list for m = 2, prec = 3, in its order |
| OmFrame.Denom | src/sage/rings/polynomial/padics/omtree/frame.py:218-228 | `denom()` of a rational is at least 1 |
| OmFrame.DenomOfZero | src/sage/rings/polynomial/padics/omtree/frame.py:218 | the denominator of zero is 1, so every E accepts valuation 0 |
| OmFrame.RatMod | src/sage/rings/polynomial/padics/omtree/frame.py:232-233 | Sage `Rational % psimod` is a residue below psimod |
| OmFrame.RatModSound | src/sage/rings/polynomial/padics/omtree/frame.py:232-233 | the residue s satisfies s * denominator = numerator modulo psimod, and it is an error exactly when the denominator has no inverse modulo psimod |
| OmFrame.Quotient | src/sage/rings/polynomial/padics/omtree/frame.py:232 | `vprime / e` is the rational whose product with e is vprime |
| OmFrame.NewNode | src/sage/rings/polynomial/padics/omtree/frame.py:78-107 | `Frame.__init__`: the new node keeps its link to the parent and counts iteration_count + 1; a root has E = F = 1 and depth 0, a child multiplies its parent's E by Eplus and F by Fplus and is one level deeper |
| OmFrame.IsFirst | src/sage/rings/polynomial/padics/omtree/frame.py:401-419 | `is_first` holds exactly when the frame has no link to a parent |
| OmFrame.PrevFrame | src/sage/rings/polynomial/padics/omtree/frame.py:369-399 | `prev_frame` is None exactly at a root, and otherwise the frame of the parent segment, strictly higher in the tree |
| OmFrame.Root | src/sage/rings/polynomial/padics/omtree/frame.py:238-280 | `root` returns a frame that is first |
| OmFrame.BuiltDegrees | src/sage/rings/polynomial/padics/omtree/frame.py:99-107 | in a tree made by `__init__`, E and F are the products of the Eplus and Fplus along the path from the root, and depth is the length of that path |
| OmFrame.RootIsTop | src/sage/rings/polynomial/padics/omtree/frame.py:277-280 | `root` is the ancestor as many levels up as there are links, and in a tree made by `__init__` it has E = F = 1 and depth 0 |
| OmFrame.PsiMod | src/sage/rings/polynomial/padics/omtree/frame.py:224-228 | psimod, the denominator of slope * E(parent), is at least 1 |
| OmFrame.Exponent | src/sage/rings/polynomial/padics/omtree/frame.py:229-233 | the exponent of phi is 0 when psimod is 1 and otherwise a residue below psimod |
| OmFrame.Lowered | src/sage/rings/polynomial/padics/omtree/frame.py:234 | the valuation passed up is val - s * slope |
| OmFrame.Descend | src/sage/rings/polynomial/padics/omtree/frame.py:224-234 | one level of `find_psi`: an exponent below psimod (0 when psimod is 1) and the lowered valuation val - s * slope |
| OmFrame.FindPsiValuation | src/sage/rings/polynomial/padics/omtree/frame.py:172-236 | the element `find_psi(val)` returns has valuation val: the root constant's valuation plus each exponent times the slope of its level |
| OmFrame.FindPsiShaped | src/sage/rings/polynomial/padics/omtree/frame.py:220-236 | the element has one level per link up to the root, each exponent reduced modulo its psimod |
| OmFrame.FindPsiStep | src/sage/rings/polynomial/padics/omtree/frame.py:223-235 | below a root, a successful `find_psi` is one descent step followed by the parent's `find_psi` of the lowered valuation |
| OmFrame.FindPsiRoot | src/sage/rings/polynomial/padics/omtree/frame.py:218-222 | a valuation whose denominator does not divide E raises "Denominator of given valuation does not divide E"; at a root any other valuation gives the constant of that valuation |
| OmFrame.ExampleDescend | src/sage/rings/polynomial/padics/omtree/frame.py:200-205 | at the documented child (E = 4, slope 1/4), valuation 7/4 takes exponent 3 and asks the root for valuation 1 |
| OmFrame.FindPsiExample | src/sage/rings/polynomial/padics/omtree/frame.py:200-205 | `find_psi(7/4)` at that child is the root constant of valuation 1 times phi^3 |
| OmFrame.FindPsiRefused | src/sage/rings/polynomial/padics/omtree/frame.py:212-215 | `find_psi(3/8)` at that child raises the documented ValueError |
| OmFrame.ExpansionLoop | src/sage/rings/polynomial/padics/omtree/frame.py:166-168 | the loop of `seed` only appends to the coefficients it was given |
| OmFrame.ExpansionStep | src/sage/rings/polynomial/padics/omtree/frame.py:167-168 | one more division of the quotient by phi extends the phi-expansion identity by the new remainder |
| OmFrame.ExpansionLoopIdentity | src/sage/rings/polynomial/padics/omtree/frame.py:166-168 | the loop keeps Phi = es[0] + es[1] phi + ... + phi^len * rest, keeps every coefficient of degree below phi, and stops with a zero quotient or with `length` coefficients |
| OmFrame.ExpansionIdentity | src/sage/rings/polynomial/padics/omtree/frame.py:160-168 | the phi-expansion recombines to Phi with the quotient left over, starts with Phi mod phi, has coefficients of degree below that of phi, and stops only at a zero quotient or at `length` |
| OmFrame.ExpansionExact | src/sage/rings/polynomial/padics/omtree/frame.py:160-168 | with `length` infinite the expansion is exact: Phi = sum of es[i] * phi^i |
| OmFrame.ExpansionLength | src/sage/rings/polynomial/padics/omtree/frame.py:166 | with a finite `length` no more than `length` coefficients are kept |
| OmFrame.ExpansionAsWrittenAgrees | src/sage/rings/polynomial/padics/omtree/frame.py:160-168 | the expansion as written equals the phi-expansion whenever deg phi <= deg Phi, and is exactly [Phi, Phi] with nothing left over otherwise |
| OmFrame.ExpansionAsWrittenCounterexample | src/sage/rings/polynomial/padics/omtree/frame.py:162-165 | for Phi = 1 and phi = x the expansion as written is [1, 1], which recombines to 1 + x rather than Phi, while the corrected expansion is [1] |
| OmFrame.Frame.constructor | src/sage/rings/polynomial/padics/omtree/frame.py:78-107 | an unseeded frame over Phi with the tree bookkeeping of `__init__`, phi None and no polygon yet |
| OmFrame.Frame.Seed | src/sage/rings/polynomial/padics/omtree/frame.py:126-170 | `seed` sets phi, stores the expansion as the code builds it (the phi-expansion, or [Phi, Phi] when phi has larger degree than Phi), and stores the Newton polygon of the valuations of its coefficients, or the ValueError the polygon raises |
| OmFrame.Frame.PhiDividesPhi | src/sage/rings/polynomial/padics/omtree/frame.py:421-442 | `phi_divides_Phi` on an unseeded frame is an AttributeError; on a seeded one it holds exactly when Phi mod phi is zero |
| OmFrame.Frame.SingleFactorLift | src/sage/rings/polynomial/padics/omtree/frame.py:444-539 | `single_factor_lift`: AttributeError unseeded; phi when phi divides Phi; the unpacking error when the expansion has a single coefficient; otherwise the corrected phi improved once per pass, the passes ending when 2^h reaches the cap or phi stops changing, with every earlier pass changing phi |
| OmFrame.Valuations | src/sage/rings/polynomial/padics/omtree/frame.py:169-170 | the list handed to `_newton_polygon` holds the valuation of each expansion coefficient, in order |
| OmFrame.DividesWhenRemainderZero | src/sage/rings/polynomial/padics/omtree/frame.py:421-442 | when Phi mod phi is zero, Phi is the quotient times phi at every point, so `phi_divides_Phi` is divisibility |
| OmFrame.CeilLog2 | src/sage/rings/polynomial/padics/omtree/frame.py:523-538 | the least k with 2^k at least n |
| OmFrame.LiftPassBound | src/sage/rings/polynomial/padics/omtree/frame.py:523-538 | since h doubles from 2 while h < prec, the lifting loop runs fewer than ceil(log2 prec) passes |
| Polynomials.Trim | src/sage/rings/polynomial/padics/omtree/frame.py:164-167 | removing trailing zeros keeps a prefix and drops only zeros |
| Polynomials.Sub | src/sage/rings/polynomial/padics/omtree/frame.py:164-167 | the difference of polynomials, coefficient by coefficient |
| Polynomials.Add | src/sage/rings/polynomial/padics/omtree/frame.py:164-167 | the sum of polynomials, coefficient by coefficient |
| Polynomials.EvalTrim | src/sage/rings/polynomial/padics/omtree/frame.py:164-167 | trimming does not change the value at any point |
| Polynomials.EvalSub | src/sage/rings/polynomial/padics/omtree/frame.py:164-167 | the value of a difference is the difference of the values |
| Polynomials.EvalAdd | src/sage/rings/polynomial/padics/omtree/frame.py:164-167 | the value of a sum is the sum of the values |
| Polynomials.EvalScale | src/sage/rings/polynomial/padics/omtree/frame.py:164-167 | the value of c * g is c times the value of g |
| Polynomials.EvalShiftScale | src/sage/rings/polynomial/padics/omtree/frame.py:164-167 | the value of c * x^k * g is c * x^k times the value of g |
| Polynomials.LeadingCancels | src/sage/rings/polynomial/padics/omtree/frame.py:164-167 | one long-division step lowers the degree of the dividend |
| Polynomials.QuoRem | src/sage/rings/polynomial/padics/omtree/frame.py:164-167 | `quo_rem` by a monic phi: a remainder of degree below phi, the dividend itself when it is of lower degree, and otherwise a quotient of degree deg f - deg phi |
| Polynomials.QuoRemIdentity | src/sage/rings/polynomial/padics/omtree/frame.py:164-167 | f = q * phi + r at every point |
| NewtonPolygon.PopRightTurns | src/sage/rings/polynomial/padics/omtree/frame.py:336-337 | popping the vertices that make a strict right turn with the new point keeps the hull state and leaves no right turn at the end |
| NewtonPolygon.LowerHull | src/sage/rings/polynomial/padics/omtree/frame.py:331-338 | the monotone-chain loop returns the lower convex hull of the points (i, a[i]): a chain from index 0 to the last index, convex, with every point on or above every edge line and every point on the boundary kept as a vertex |
| NewtonPolygon.ConvexSlopes | src/sage/rings/polynomial/padics/omtree/frame.py:354-363 | along a convex chain the negated slopes do not increase |
| NewtonPolygon.GroupEdges | src/sage/rings/polynomial/padics/omtree/frame.py:354-365 | the segment loop returns the grouping of the hull's edges |
| NewtonPolygon.GroupedIsGrouping | src/sage/rings/polynomial/padics/omtree/frame.py:354-365 | along a convex chain the segments are runs of equal negated slope that join up to the chain, with strictly decreasing slopes from one to the next |
| NewtonPolygon.GroupedAbutting | src/sage/rings/polynomial/padics/omtree/frame.py:354-365 | each segment starts where the one before it ends |
| NewtonPolygon.VertexOnBoundary | src/sage/rings/polynomial/padics/omtree/frame.py:335-338 | every vertex of a lower hull is a boundary point of the point set |
| NewtonPolygon.InsideNotBoundary | src/sage/rings/polynomial/padics/omtree/frame.py:335-338 | a point strictly inside an edge of the hull is no boundary point |
| NewtonPolygon.HullIsBoundary | src/sage/rings/polynomial/padics/omtree/frame.py:331-338 | a lower hull that keeps its boundary points is unique: it is the sequence of boundary points |
| NewtonPolygon.FirstBelow | src/sage/rings/polynomial/padics/omtree/frame.py:344-348 | the first vertex from position c on whose valuation is below the precision cap, or None when all are at or above it |
| NewtonPolygon.FindBelowCap | src/sage/rings/polynomial/padics/omtree/frame.py:344-348 | the for-else search returns that first vertex after the first |
| NewtonPolygon.ComputePolygon | src/sage/rings/polynomial/padics/omtree/frame.py:282-365 | `_newton_polygon`: an IndexError on an empty list, otherwise the polygon of the lower hull of the valuations |
| NewtonPolygon.PolygonPlain | src/sage/rings/polynomial/padics/omtree/frame.py:339-365 | without phi dividing Phi, the polygon of a chain of two or more points is its grouping into maximal runs of equal negated slope |
| NewtonPolygon.PolygonAboveCap | src/sage/rings/polynomial/padics/omtree/frame.py:343-348 | with phi dividing Phi, the polygon is "Entire polygon above precision cap" exactly when every vertex after the first is at or above the cap |
| NewtonPolygon.PolygonInfinite | src/sage/rings/polynomial/padics/omtree/frame.py:343-365 | with phi dividing Phi, the polygon starts with the segment of slope +infinity down to the first vertex below the cap, followed by the grouping of the rest of the hull when the rest has an edge |
| NewtonPolygon.ExampleHull | src/sage/rings/polynomial/padics/omtree/frame.py:311-312 | the hull of the documented valuations [20, 1, 0, 0] keeps all four points |
| NewtonPolygon.PolygonExample | src/sage/rings/polynomial/padics/omtree/frame.py:307-316 | the documented polygon: a segment of slope +infinity, one of slope 1 and one of slope 0, each of length 1 |
| Isogeny.ChangeCoef | src/sage/schemes/elliptic_curves/ell_curve_isogeny_new.py:76-129 | `change_elliptic_coef` raises "u coefficient must be invertible." exactly when u is zero |
| Isogeny.ChangeIdentity | src/sage/schemes/elliptic_curves/ell_curve_isogeny_new.py:101-102 | the change (1, 0, 0, 0) leaves every a-invariant alone |
| Isogeny.ChangeDocumented | src/sage/schemes/elliptic_curves/ell_curve_isogeny_new.py:103-108 | the three other documented values of `change_elliptic_coef` on [1, 2, 3, 4, 5] |
| Isogeny.ShiftCompose | src/sage/schemes/elliptic_curves/ell_curve_isogeny_new.py:124-128 | two changes with u = 1 compose: (1, r, s, t) then (1, r', s', t') is (1, r + r', s + s', t + s r' + t') |
| Isogeny.ShiftA6Equation | src/sage/schemes/elliptic_curves/ell_curve_isogeny_new.py:124 | the new a6 of a shift is minus the Weierstrass equation at (r, t) |
| Isogeny.ScaleCompose | src/sage/schemes/elliptic_curves/ell_curve_isogeny_new.py:129 | scaling by v and then by u is scaling by v u |
| Isogeny.ShiftScale | src/sage/schemes/elliptic_curves/ell_curve_isogeny_new.py:124-129 | a shift of a scaled curve is the scaling of a shift by the same amounts of matching weight |
| Isogeny.UrstInvWeights | src/sage/schemes/elliptic_curves/ell_curve_isogeny_new.py:421 | `urst_inv` = (1/u, -r/u^2, -s/u, (rs - t)/u^3) is a change by 1/u with the weighted -r, -s and rs - t |
| Isogeny.ChangeInverse | src/sage/schemes/elliptic_curves/ell_curve_isogeny_new.py:421 | for invertible u, changing by `urst` and then by `urst_inv` gives back the a-invariants |
| Isogeny.ShiftInverse | src/sage/schemes/elliptic_curves/ell_curve_isogeny_new.py:421 | the shift (1, -r, -s, rs - t) undoes the shift (1, r, s, t) |
| Isogeny.ScaleInverse | src/sage/schemes/elliptic_curves/ell_curve_isogeny_new.py:129 | scaling by v and then by its reciprocal gives back the curve |
| Isogeny.ChangeEquation | src/sage/schemes/elliptic_curves/ell_curve_isogeny_new.py:80-118 | the documented test: the old equation at x = u^2 x' + r, y = u^3 y' + s u^2 x' + t is u^6 times the new equation at (x', y') |
| Isogeny.ShiftEquation | src/sage/schemes/elliptic_curves/ell_curve_isogeny_new.py:124-128 | the old equation at (x + r, y + s x + t) is the equation of the shifted invariants at (x, y) |
| Isogeny.ScaleEquation | src/sage/schemes/elliptic_curves/ell_curve_isogeny_new.py:129 | the equation of the invariants weighted by u, at (u^2 x, u^3 y), is u^6 times the equation |
| Isogeny.PreReduce | src/sage/schemes/elliptic_curves/ell_curve_isogeny_new.py:376-386 | `_pre_urst` and the reduced domain: NotImplementedError exactly when a1 or a3 is non-zero in characteristic 2; otherwise a change with u = 1 and a reduced curve with a1 = a3 = 0 |
| Isogeny.PreReduceIsChange | src/sage/schemes/elliptic_curves/ell_curve_isogeny_new.py:376-386 | outside characteristic 2 the reduced domain is the domain changed by (1, 0, -a1/2, -a3/2), `_pre_urst` is the inverse of that change, and changing back gives the domain |
| Isogeny.FromRoots | src/sage/schemes/elliptic_curves/ell_curve_isogeny_new.py:388-389 | the kernel polynomial with roots xs has one more coefficient than there are roots |
| Isogeny.TopCoefficients | src/sage/schemes/elliptic_curves/ell_curve_isogeny_new.py:389 | the polynomial with roots xs is monic and its three coefficients below the leading one are -e1, e2 and -e3 |
| Isogeny.MonicPowerSums | src/sage/schemes/elliptic_curves/ell_curve_isogeny_new.py:388-392 | for a monic h the power sums are read off the three coefficients below the leading one |
| Isogeny.Newton | src/sage/schemes/elliptic_curves/ell_curve_isogeny_new.py:390-392 | Newton's identities: s1 = e1, s2 = e1^2 - 2 e2, s3 = e1^3 - 3 e1 e2 + 3 e3 |
| Isogeny.PowerSumsOfRoots | src/sage/schemes/elliptic_curves/ell_curve_isogeny_new.py:387-393 | the power sums read off a monic kernel polynomial are the sums of x, x^2 and x^3 over its roots |
| Isogeny.Velu | src/sage/schemes/elliptic_curves/ell_curve_isogeny_new.py:395-401 | Vélu's step changes only a4 and a6 |
| Isogeny.VeluSumsArePowerSums | src/sage/schemes/elliptic_curves/ell_curve_isogeny_new.py:396-397 | the t and w computed from the power sums are Vélu's sums over the roots |
| Isogeny.VeluOnRoots | src/sage/schemes/elliptic_curves/ell_curve_isogeny_new.py:387-401 | on the kernel polynomial of a finite set of abscissae, the step is Vélu's formula summed over them |
| Isogeny.VeluTwoTorsion | src/sage/schemes/elliptic_curves/ell_curve_isogeny_new.py:395-401 | for a kernel of order 2 generated by (x0, 0), the step gives the classical 2-isogeny |
| Isogeny.IdentityInverse | src/sage/schemes/elliptic_curves/ell_curve_isogeny_new.py:417-421 | the default `urst` (1, 0, 0, 0) is its own `urst_inv` |
| Isogeny.InitViaKernel | src/sage/schemes/elliptic_curves/ell_curve_isogeny_new.py:354-423 | `_init_via_kernel_polynomial` without a `codomain` argument raises the characteristic-2 error whenever the pre-reduction does |
| Isogeny.InitErrors | src/sage/schemes/elliptic_curves/ell_curve_isogeny_new.py:379-416 | the errors in the order the source raises them: characteristic 2, then a `urst` whose u is not invertible, then a singular codomain refused by `EllipticCurve`; there is no other error |
| Isogeny.SingularCodomain | src/sage/schemes/elliptic_curves/ell_curve_isogeny_new.py:403-416 | on y^2 = x^3 - 15x - 350/13 the kernel polynomial x + 2 gives Vélu invariants all zero, a singular curve, so the constructor raises |
| Isogeny.InitDefault | src/sage/schemes/elliptic_curves/ell_curve_isogeny_new.py:403-421 | without `urst`, when the curve changed back by `_pre_urst` is not singular, the isogeny keeps h and `_pre_urst`, has that curve as codomain and the identity as `urst` and `urst_inv` |
| Isogeny.DefaultIsogeny | src/sage/schemes/elliptic_curves/ell_curve_isogeny_new.py:415-421 | without `urst`, the isogeny exists exactly when its codomain is non-singular, and then it has degree deg h + 1, is normalized, and `urst_inv` is the identity |
| Isogeny.DefaultCodomain | src/sage/schemes/elliptic_curves/ell_curve_isogeny_new.py:376-416 | for the kernel polynomial of a set of abscissae, the default codomain changed by the reduction is Vélu's curve of the reduced domain |
| Isogeny.CodomainBack | src/sage/schemes/elliptic_curves/ell_curve_isogeny_new.py:403 | changing the codomain by the reduction undoes `_pre_urst` |
| Isogeny.TrivialKernel | src/sage/schemes/elliptic_curves/ell_curve_isogeny_new.py:387-417 | the kernel polynomial 1 on a non-singular curve gives the isogeny onto the domain itself with identity `urst` |
| Isogeny.GivenUrst | src/sage/schemes/elliptic_curves/ell_curve_isogeny_new.py:412-421 | with a `urst` argument w, the isogeny stores w and its inverse, is normalized exactly when u = 1, and `urst_inv` maps its codomain back to the default one |
| Isogeny.InitGiven | src/sage/schemes/elliptic_curves/ell_curve_isogeny_new.py:412-421 | with `urst` w and a non-singular changed codomain, the isogeny has that codomain, `urst` w and `urst_inv` the inverse of w |
| Isogeny.TwoIsogenyDocumented | src/sage/schemes/elliptic_curves/ell_curve_isogeny_new.py:543-547 | on y^2 = x^3 + x the kernel point (0, 0), kernel polynomial x, gives an isogeny of degree 2 onto y^2 = x^3 - 4x |
| Isogeny.DegreeDocumented | src/sage/schemes/elliptic_curves/ell_curve_isogeny_new.py:548-551 | on the same curve h = x^3 + x gives an isogeny of degree 4 |
| Isogeny.A4Discriminant | src/sage/schemes/elliptic_curves/ell_curve_isogeny_new.py:416 | the curve y^2 = x^3 + a4 x has discriminant -64 a4^3, so the codomains above are non-singular |
| Isogeny.NormalizationDocumented | src/sage/schemes/elliptic_curves/ell_curve_isogeny_new.py:571-579 | with kernel polynomial x the isogeny is normalized by default and not with `urst` = (3, 0, 0, 0) |
| Isogeny.ScaledByThree | src/sage/schemes/elliptic_curves/ell_curve_isogeny_new.py:577-579 | changing y^2 = x^3 - 4x by (3, 0, 0, 0) gives y^2 = x^3 - 4/81 x |
| PoissonVertex.Padded | src/sage/algebras/vertex_algebras/poisson_vertex_algebra.py:241-245 | `to_exp(m)` is the exponent vector padded with zeros to length m |
| PoissonVertex.Trim | src/sage/algebras/vertex_algebras/poisson_vertex_algebra.py:246 | `Partition(exp=...)` ignores trailing zero multiplicities: the same multiplicities and no trailing zero |
| PoissonVertex.PartMultiplyOne | src/sage/algebras/vertex_algebras/poisson_vertex_algebra.py:241-246 | the product partition at one position has, for every part, the sum of the two multiplicities |
| PoissonVertex.PartMultiply | src/sage/algebras/vertex_algebras/poisson_vertex_algebra.py:237-247 | `partmultiply` raises IndexError exactly when p2 is shorter than p1, and otherwise returns one partition per position of p1 whose multiplicities are the sums of those of p1[j] and p2[j] |
| PoissonVertex.PartMultiplyInto | src/sage/algebras/vertex_algebras/poisson_vertex_algebra.py:237-247 | the loop that fills the list of len(p1) slots returns exactly `partmultiply` |
| PoissonVertex.SizeTrailing | src/sage/algebras/vertex_algebras/poisson_vertex_algebra.py:244-245 | padding an exponent vector does not change the size of the partition |
| PoissonVertex.PartMultiplySize | src/sage/algebras/vertex_algebras/poisson_vertex_algebra.py:246 | the product partition has the parts of both: its size is the sum of the sizes |
| PoissonVertex.PartMultiplyCommutes | src/sage/algebras/vertex_algebras/poisson_vertex_algebra.py:237-247 | on lists of the same length `partmultiply` is commutative |
| PoissonVertex.TrimmedEqual | src/sage/algebras/vertex_algebras/poisson_vertex_algebra.py:246 | two exponent vectors without trailing zeros and with the same multiplicities are equal |
| PoissonVertex.SumDict | src/sage/algebras/vertex_algebras/poisson_vertex_algebra.py:307-315 | `sumdict`: the coefficient of every degree is the sum of the two, and no key outside the two dictionaries appears |
| PoissonVertex.SubDict | src/sage/algebras/vertex_algebras/poisson_vertex_algebra.py:326-334 | `subdict`: the coefficient of every degree is the difference of the two, and no key outside the two dictionaries appears |
| PoissonVertex.AddCoef | src/sage/algebras/vertex_algebras/poisson_vertex_algebra.py:306-323 | `_add_` adds the coefficients of every (weight, degree) |
| PoissonVertex.SubCoef | src/sage/algebras/vertex_algebras/poisson_vertex_algebra.py:325-342 | `_sub_` subtracts the coefficients of every (weight, degree) |
| PoissonVertex.Act | src/sage/algebras/vertex_algebras/poisson_vertex_algebra.py:347-351 | `_acted_upon_` by zero is the zero element; otherwise every weight and every degree is kept |
| PoissonVertex.ActCoef | src/sage/algebras/vertex_algebras/poisson_vertex_algebra.py:347-351 | scaling multiplies every coefficient by the scalar |
| PoissonVertex.CleanUnique | src/sage/algebras/vertex_algebras/poisson_vertex_algebra.py:306-342 | two elements with no stored zero and no empty inner dictionary are equal exactly when their coefficients are |
| PoissonVertex.SumDictNonZero | src/sage/algebras/vertex_algebras/poisson_vertex_algebra.py:307-315 | merging into a dictionary without zeros stores no zero |
| PoissonVertex.AddClean | src/sage/algebras/vertex_algebras/poisson_vertex_algebra.py:306-323 | adding two such elements gives such an element |
| PoissonVertex.AddCommutes | src/sage/algebras/vertex_algebras/poisson_vertex_algebra.py:306-323 | on such elements `_add_` is commutative as a dictionary |
| PoissonVertex.SubSelf | src/sage/algebras/vertex_algebras/poisson_vertex_algebra.py:325-342 | a - a is the empty dictionary, the zero element |
| PoissonVertex.SubDictSelf | src/sage/algebras/vertex_algebras/poisson_vertex_algebra.py:326-334 | `subdict(d, d)` is empty when d stores no zero |
| PoissonVertex.Weight | src/sage/algebras/vertex_algebras/poisson_vertex_algebra.py:401-404 | `weight` returns the only conformal weight, and raises "not homogeneous" exactly when there is not exactly one |
| PoissonVertex.LiFiltrationDegree | src/sage/algebras/vertex_algebras/poisson_vertex_algebra.py:406-410 | `li_filtration_degree` returns the common degree when all entries share one, raises IndexError when there is no entry, and raises "not homogeneous" otherwise |
| PoissonVertex.Bidegree | src/sage/algebras/vertex_algebras/poisson_vertex_algebra.py:412-420 | `_bidegree` is (0, 0) for zero, the single (weight, degree) of a monomial, and "not a monomial" for any other element |
| PoissonVertex.BigradedTerm | src/sage/algebras/vertex_algebras/poisson_vertex_algebra.py:422-427 | `_get_bigraded_term(m, n)` keeps only the coefficient of degree (m, n), and stores no zero |
| OmpHopf.Range | src/sage/combinat/chas/omp_hopf_algebras.py:803 | `range(1, n + 1)` holds exactly the integers 1..n |
| OmpHopf.AlphabetSet | src/sage/combinat/chas/omp_hopf_algebras.py:802-805 | an integer alphabet n names the letters 1..n, a list names exactly its own letters |
| OmpHopf.Normalize | src/sage/combinat/chas/omp_hopf_algebras.py:792-820 | a non-commutative ring is refused with "argument R (=…) must be a commutative ring"; an empty alphabet with "keyword alphabet (={}) must be a nonempty set of positive integers"; otherwise the parent keeps the algebra and ring, has no alphabet exactly when none was given, and uses order grading when asked or, by default, exactly when an alphabet was given |
| OmpHopf.NormalizeAlgebraIndependent | src/sage/combinat/chas/omp_hopf_algebras.py:1585-1614 | OMPQSym normalises its arguments exactly as OMPSym does: same acceptance, same parent apart from the algebra |
| OmpHopf.NormalizeAcceptsNonPositive | src/sage/combinat/chas/omp_hopf_algebras.py:805-807 | the alphabet [0, -1] is accepted although the message asks for positive integers (only membership in ZZ is tested), while the integer alphabet 0 is refused |
| OmpHopf.Degree | src/sage/combinat/chas/omp_hopf_algebras.py:215-218 | the degree is the order under order grading and the size otherwise |
| OmpHopf.Product | src/sage/combinat/chas/omp_hopf_algebras.py:1000 | the product of H_A and H_B (and of P_A and P_B) is indexed by A followed by B |
| OmpHopf.DegreeProduct | src/sage/combinat/chas/omp_hopf_algebras.py:971-1000 | the product is graded: the degree of A + B is the sum of the degrees, under either grading |
| OmpHopf.ProductUnitAssociative | src/sage/combinat/chas/omp_hopf_algebras.py:1234-1266 | the empty partition is a two-sided unit and the product is associative |
| OmpHopf.DegreeDocumented | src/sage/combinat/chas/omp_hopf_algebras.py:201-214 | [{1,2}, {1,4}] has degree 8 under size grading and 4 under order grading |
| OmpHopf.IsCommutative | src/sage/combinat/chas/omp_hopf_algebras.py:525-542 | OMPSym is deemed commutative exactly when the base ring is zero or the alphabet has one letter; OMPQSym always (lines 1344-1354) |
| OmpHopf.ProductCommutesIff | src/sage/combinat/chas/omp_hopf_algebras.py:525-542 | the concatenation product on basis elements over an alphabet commutes for all pairs exactly when the alphabet has a single letter, which is the alphabet test of `is_commutative` |
| OmpHopf.DescentsFrom | src/sage/combinat/chas/omp_hopf_algebras.py:1947 | the descents are, in increasing order, exactly the positions d with min(A[d-1]) >= min(A[d]) |
| OmpHopf.CutsShape | src/sage/combinat/chas/omp_hopf_algebras.py:1948 | the cut points start at 0, end at len(A), increase strictly, and the inner ones are exactly the descents |
| OmpHopf.Factored | src/sage/combinat/chas/omp_hopf_algebras.py:1949 | `factored_A` has one factor per pair of consecutive cut points |
| OmpHopf.FactoredFlatten | src/sage/combinat/chas/omp_hopf_algebras.py:1949 | the factors concatenate back to A |
| OmpHopf.FactorIncreasing | src/sage/combinat/chas/omp_hopf_algebras.py:1947-1949 | each factor is a non-empty partition whose block minima increase strictly |
| OmpHopf.FactorBoundary | src/sage/combinat/chas/omp_hopf_algebras.py:1947-1949 | at the junction of two consecutive factors the minima do not increase |
| OmpHopf.CutIsDescent | src/sage/combinat/chas/omp_hopf_algebras.py:1947-1948 | every inner cut point is a descent |
| OmpHopf.NonEmptyBlocks | src/sage/combinat/chas/omp_hopf_algebras.py:1943 | `[b for b in B if b]` is a valid partition no longer than B, and leaves a valid partition unchanged |
| OmpHopf.MergeShape | src/sage/combinat/chas/omp_hopf_algebras.py:1940-1943 | gluing allowed blocks i and i + 1 replaces them by their union in place and shortens A by one block |
| OmpHopf.MergeInReach | src/sage/combinat/chas/omp_hopf_algebras.py:1937-1946 | each allowed gluing of A is reachable from A, and so is everything reachable from it |
| OmpHopf.ReachTransitive | src/sage/combinat/chas/omp_hopf_algebras.py:1937-1946 | what a reachable partition reaches is reachable |
| OmpHopf.ReachInClosed | src/sage/combinat/chas/omp_hopf_algebras.py:1937-1946 | the reachable partitions are the least set containing A and closed under allowed gluings |
| OmpHopf.Glueings | src/sage/combinat/chas/omp_hopf_algebras.py:1937-1946 | the worklist `glueings` terminates and its set is exactly the partitions reachable from the argument by allowed gluings |
| OmpHopf.GlueEntry | src/sage/combinat/chas/omp_hopf_algebras.py:1939-1943 | visiting entry k appends only gluings of that entry, appends every allowed one, keeps the earlier entries, and lowers the bound on the work left |
| OmpHopf.AlternatingSum | src/sage/combinat/chas/omp_hopf_algebras.py:1956-1994 | the signed sum has exactly the given partitions as support, each with coefficient (-1)^(n - length) |
| OmpHopf.SumOfDistinctTerms | src/sage/combinat/chas/omp_hopf_algebras.py:1994 | `sum_of_terms(terms, distinct=True)` has as keys exactly the partitions of the terms |
| OmpHopf.SumOfSignedTerms | src/sage/combinat/chas/omp_hopf_algebras.py:1994 | when each term's coefficient is (-1)^(n - length of its partition), so is each coefficient of the sum |
| OmpHopf.MToPd | src/sage/combinat/chas/omp_hopf_algebras.py:1956-1994 | `_M_to_Pd(A)` is the sum, over the partitions reachable from A by allowed gluings, of (-1)^(len(A) - len(B)) Pd_B; a partition of at most one block maps to itself |
| OmpHopf.SignedWorklistSum | src/sage/combinat/chas/omp_hopf_algebras.py:1984-1994 | a finished signed worklist sums to the signed sum over the set of its partitions |
| OmpHopf.FinishedWorklist | src/sage/combinat/chas/omp_hopf_algebras.py:1984-1993 | a worklist that starts at A, holds only reachable partitions and has visited every entry holds exactly the partitions reachable from A |
| OmpHopf.ReachShorter | src/sage/combinat/chas/omp_hopf_algebras.py:1988-1992 | gluing never lengthens a partition |
| OmpHopf.SignedEntry | src/sage/combinat/chas/omp_hopf_algebras.py:1985-1992 | visiting entry k appends every allowed gluing of it with the opposite sign, keeps the earlier terms, keeps every sign equal to (-1) to the number of gluings made, and lowers the bound on the work left |
| OmpHopf.MergeContent | src/sage/combinat/chas/omp_hopf_algebras.py:1988-1991 | a gluing keeps the letters with multiplicity, hence the order and the size |
| OmpHopf.ReachContent | src/sage/combinat/chas/omp_hopf_algebras.py:1984-1993 | every reachable partition is valid and has the letters, order and size of A |
| OmpHopf.MToPdHomogeneous | src/sage/combinat/chas/omp_hopf_algebras.py:1956-1994 | every term of `_M_to_Pd(A)` has the letters of A, so the change of basis preserves the degree under either grading |
| OmpHopf.MToPdTriangular | src/sage/combinat/chas/omp_hopf_algebras.py:1956-1994 | Pd_A occurs in `_M_to_Pd(A)` with coefficient 1 and every other term is shorter than A |
| OmpHopf.GlueSets | src/sage/combinat/chas/omp_hopf_algebras.py:1950 | there is one set of gluings per factor of A |
| OmpHopf.TuplesInjective | src/sage/combinat/chas/omp_hopf_algebras.py:1950-1952 | two choices of one gluing per factor that concatenate to the same partition are the same choice |
| OmpHopf.PdToMCoefficients | src/sage/combinat/chas/omp_hopf_algebras.py:1905-1953 | every coefficient of `_Pd_to_M(A)` is 1 |
| OmpHopf.PdToMHomogeneous | src/sage/combinat/chas/omp_hopf_algebras.py:1905-1953 | every term of `_Pd_to_M(A)` has the letters of A, so it preserves the degree under either grading |
| OmpHopf.PdToMLeading | src/sage/combinat/chas/omp_hopf_algebras.py:1905-1953 | M_A occurs in `_Pd_to_M(A)` with coefficient 1 |
| OmpHopf.FactoredTuple | src/sage/combinat/chas/omp_hopf_algebras.py:1950 | the factors themselves are one choice from the cartesian product |
| OmpSymmetric.RepeatsAny | src/sage/combinat/chas/omp_hopf_algebras.py:1419 | the product of the multiplicities' factorials does not depend on which block is taken first |
| OmpSymmetric.RepeatsDistinct | src/sage/combinat/chas/omp_hopf_algebras.py:1419 | pairwise different blocks contribute no repeated orderings |
| OmpSymmetric.RepeatsCopies | src/sage/combinat/chas/omp_hopf_algebras.py:1419 | n equal blocks have n! reorderings among themselves |
| OmpSymmetric.ArrangementsDistinct | src/sage/combinat/chas/omp_hopf_algebras.py:1419 | a class of pairwise different blocks has len(la)! arrangements |
| OmpSymmetric.ArrangementsCopies | src/sage/combinat/chas/omp_hopf_algebras.py:1419 | a class of n equal blocks has a single arrangement |
| OmpSymmetric.CountArrangements | src/sage/combinat/chas/omp_hopf_algebras.py:1419 | `Permutations_mset(la).cardinality()` is len(la)! divided by the product of the factorials of the block multiplicities |
| OmpSymmetric.IsSymmetric | src/sage/combinat/chas/omp_hopf_algebras.py:1407-1419 | `is_symmetric` returns True exactly when terms of the same class carry the same coefficient and every class met occurs with all its arrangements |
| OmpSymmetric.SymmetricOrderings | src/sage/combinat/chas/omp_hopf_algebras.py:1388-1393 | the six orderings of three distinct blocks are symmetric, and stay so after subtracting 3 M[c, c] |
| OmpSymmetric.AddToOneClass | src/sage/combinat/chas/omp_hopf_algebras.py:1391-1393 | adding a term of a new class with a single arrangement keeps a one-class symmetric element symmetric |
| OmpSymmetric.AddPair | src/sage/combinat/chas/omp_hopf_algebras.py:1394-1399 | adding one ordering of a two-arrangement class breaks symmetry, and adding the other ordering with the same coefficient restores it |
| OmpSymmetric.SymmetryBrokenAndRestored | src/sage/combinat/chas/omp_hopf_algebras.py:1394-1399 | adding M[a, b] breaks symmetry and adding M[b, a] restores it |
| OmpSymmetric.IsSymmetricDocumented | src/sage/combinat/chas/omp_hopf_algebras.py:1387-1405 | the documented answers for the blocks {2}, {2,3}, {1}: True, True, False, True, and True for M[[]] |
| TQSystem.TGen | src/sage/algebras/t_q_system.py:264-272 | `TSystem.gen` is the unit exactly at the boundary indices (m = 0, the level, a = 0, a = r + 1); otherwise a generator exactly when m = 1, zero exactly for an index outside the index set or a negative level, and every other generator is expanded: by Jacobi-Trudy exactly in unrestricted type A, by reduction otherwise |
| TQSystem.TGenFormalGenerators | src/sage/algebras/t_q_system.py:257-264 | the three formally defined generators as the code computes them: T^(0)_1 and T^(1)_0 are the unit, T^(1)_{-5} is zero |
| TQSystem.JacobiTrudyMatrix | src/sage/algebras/t_q_system.py:294-305 | `TSystem._jacobi_trudy` builds the m x m matrix whose entry (i, j), with b = a - i + j, is zero outside 0..r+1, the unit at b = 0 and b = r + 1, and T^(b)_1(u + i + j - m - 1) otherwise |
| TQSystem.JacobiTrudyEntries | src/sage/algebras/t_q_system.py:299-305 | every entry is zero, the unit or a generator T^(a-i+j)_1 of the index set, so the determinant only involves generators with m = 1 |
| TQSystem.JacobiTrudyDiagonal | src/sage/algebras/t_q_system.py:299-305 | the diagonal holds T^(a)_1 at the spectral parameters u - m + 1, u - m + 3, ..., u + m - 1 |
| TQSystem.JacobiTrudyBand | src/sage/algebras/t_q_system.py:299-303 | an entry is zero exactly when it lies more than a places below or more than r + 1 - a places above the diagonal |
| TQSystem.JacobiTrudyPersymmetric | src/sage/algebras/t_q_system.py:299-305 | entries (i, j) and (m+1-j, m+1-i) carry the same generator with spectral parameters mirrored around u |
| TQSystem.JacobiTrudyDocumented | src/sage/algebras/t_q_system.py:285-289 | the matrix of T^(1)_3(u) in type A_2 is the documented one, whose determinant is 1 + T1(u-2) T1(u) T1(u+2) - T1(u+2) T2(u-1) - T1(u-2) T2(u+1) |
| TQSystem.AltGen | src/sage/algebras/t_q_system.py:436-444 | `TSystemAlternate.gen` is the unit at the boundary indices, a generator exactly when a = 1, zero for a outside the index set, and raises NotImplementedError exactly for an honest generator outside unrestricted type A |
| TQSystem.AltJacobiTrudyMatrix | src/sage/algebras/t_q_system.py:465-476 | the alternate a x a matrix has entry (i, j), with k = m - i + j, zero for k < 0, the unit for k = 0 and T^(1)_k(u + i + j - a - 1) otherwise |
| TQSystem.AltIsConjugateLayout | src/sage/algebras/t_q_system.py:465-476 | when the rank leaves room, the alternate matrix of T^(a)_m is the first system's layout of T^(m)_a with every T^(b)_1 replaced by T^(1)_b |
| TQSystem.PyFloorDivIsFloor | src/sage/algebras/t_q_system.py:367-371 | Python's `//` as modelled is the floor of the quotient, for either sign of the divisor |
| TQSystem.Hermite | src/sage/algebras/t_q_system.py:370-373 | the d_b floors (n + k) // d_b for k = 0..d_b - 1 add up to n |
| TQSystem.ReduceGenOneStep | src/sage/algebras/t_q_system.py:349-374 | `_reduce_gen_one_step` is empty exactly for m = 1; otherwise its first factor is the pair T^(a)_{m-1} at spectral parameters placed symmetrically on either side of u |
| TQSystem.ReduceStepSimplyLaced | src/sage/algebras/t_q_system.py:365-373 | for a simply-laced diagram one step is the T-system relation: T^(a)_{m-1}(u - 1) T^(a)_{m-1}(u + 1) and the product of T^(b)_{m-1}(u) over the neighbours |
| TQSystem.PerKLevelSum | src/sage/algebras/t_q_system.py:370-373 | when d_a = 1 the d_b generators contributed by a neighbour b have levels adding up to m - 1 |
| TQSystem.FundamentalGen | src/sage/algebras/t_q_system.py:794-803 | `Fundamental.gen` is the unit exactly at level 0 and the restriction level, the generator exactly for m = 1, an AssertionError exactly for a outside the index set, and otherwise the polynomial of Q^(a)_m |
| TQSystem.QPolyFactors | src/sage/algebras/t_q_system.py:867-870 | the loop of `_Q_poly` multiplies in, neighbour by neighbour, the factors Q^(b)_{(m C_ba - k) // C_ab} for k = 0..-C_ab - 1 |
| TQSystem.QPoly | src/sage/algebras/t_q_system.py:855-874 | `_Q_poly(a, m)` is the recurrence exactly when m is not 0, the level or 1; it squares Q^(a)_{m-1} and divides by Q^(a)_{m-2} exactly when m > 2 |
| TQSystem.FactorLevelSum | src/sage/algebras/t_q_system.py:869-870 | the -C_ab factors a neighbour contributes have levels adding up to m times -C_ba |
| TQSystem.QFactorsSimplyLaced | src/sage/algebras/t_q_system.py:864-873 | for simply-laced neighbours the recurrence is the Q-system relation with one factor Q^(b)_{m-1} per neighbour |
| TQSystem.SquareFreeGen | src/sage/algebras/t_q_system.py:918-921 | `SquareFree.gen` is the unit exactly at level 0 and the restriction level, an AssertionError exactly for a outside the index set, and the basis monomial Q^(a)_m otherwise |
| TQSystem.ReduceSquareFree | src/sage/algebras/t_q_system.py:961-968 | `_reduce_square_free(a, m)` rewrites the square by Q^(a)_{m-1} Q^(a)_{m+1} plus the neighbour product |
| TQSystem.SquarePerKLevelSum | src/sage/algebras/t_q_system.py:967-968 | when d_a = 1 the d_b factors a neighbour b contributes have levels adding up to m |
| TQSystem.SquareFreeAgreesWithRecurrence | src/sage/algebras/t_q_system.py:939-969 | in a simply-laced diagram the square relation and the recurrence of `_Q_poly` one level up use the same neighbour factors |
| TQSystem.MonoMulExp | src/sage/algebras/t_q_system.py:977 | multiplying monomials adds exponents index by index |
| TQSystem.MonoMulAtMostSquare | src/sage/algebras/t_q_system.py:977-985 | the product of two square-free monomials has no exponent above 2 |
| TQSystem.AddTermCoef | src/sage/algebras/t_q_system.py:991 | adding a term to a coefficient dictionary changes the coefficient of its own monomial only, by its coefficient |
| TQSystem.AddElementCoef | src/sage/algebras/t_q_system.py:991 | adding elements adds coefficients monomial by monomial |
| TQSystem.AddElementValid | src/sage/algebras/t_q_system.py:991 | addition keeps the monomials distinct and the coefficients non-zero, and brings in no monomial from outside the summands |
| TQSystem.ScaleCoef | src/sage/algebras/t_q_system.py:991 | scaling by c multiplies every coefficient by c |
| TQSystem.RewriteCoef | src/sage/algebras/t_q_system.py:991 | one pass removes the rewritten term and adds c times the product of its factors |
| TQSystem.ProductStart | src/sage/algebras/t_q_system.py:977 | `sum_of_terms` of the raw products is a valid dictionary with the coefficients of the raw terms |
| TQSystem.FirstSquareSpec | src/sage/algebras/t_q_system.py:979-992 | a pass picks the first term whose monomial has a square, and none exactly when the element is square-free |
| TQSystem.PassFactorsSpec | src/sage/algebras/t_q_system.py:983-989 | a pass raises AssertionError exactly when an exponent exceeds 2; otherwise it makes one factor per item, the rewritten square for exponent 2 and the generator for exponent 1 |
| TQSystem.PassOver | src/sage/algebras/t_q_system.py:983-989 | the inner loop over the sorted items returns the factors `ret` (or the AssertionError) and notes a square exactly when the monomial is not square-free |
| TQSystem.FirstSquareTerm | src/sage/algebras/t_q_system.py:981-992 | the `for m, c in cur` loop finds a term exactly when some monomial has a square, and then the first such term and its factors |
| TQSystem.SquareFreeMul | src/sage/algebras/t_q_system.py:976-993 | `_mul_` computes the loop of passes from the raw product of the terms |
| TQSystem.MulLoopSquareFree | src/sage/algebras/t_q_system.py:978-993 | a finished product is square-free |
| TQSystem.MulLoopValid | src/sage/algebras/t_q_system.py:977-993 | every pass keeps the dictionary valid, so a finished product is valid |
| TQSystem.MulLoopKeeps | src/sage/algebras/t_q_system.py:979-993 | any property every pass keeps holds of a finished product whose start has it |
| TQSystem.MulLoopSquareFreeInput | src/sage/algebras/t_q_system.py:978-981 | a square-free product is returned unchanged, without a pass |
| TQSystem.MulLoopMorePasses | src/sage/algebras/t_q_system.py:979 | the bound on passes only cuts runs short: a run that finishes or raises ends the same way with a larger bound |
| TQSystem.FirstPassOfSquareFree | src/sage/algebras/t_q_system.py:977-985 | multiplying two square-free elements never trips the "larger than square" assertion in the first pass |
| Oscillating.Walk | src/sage/combinat/path_tableaux/oscillating.py:184-192 | the partitions of a word start from the empty partition and have one more entry than the word |
| Oscillating.WalkStep | src/sage/combinat/path_tableaux/oscillating.py:186-192 | one more letter extends the walk by its step, or ends it with that step's error |
| Oscillating.WalkErrPersists | src/sage/combinat/path_tableaux/oscillating.py:186-192 | an error raised in a prefix of the word is the error of the whole word |
| Oscillating.ApplyLetter | src/sage/combinat/path_tableaux/oscillating.py:187-192 | the loop body adds a cell in row a - 1 for a > 0 and otherwise takes a box from row -a - 1 and rebuilds the partition |
| Oscillating.FromWord | src/sage/combinat/path_tableaux/oscillating.py:180-192 | the word loop: a zero is refused with "list may not contain zero" before any step, and the partitions are then built letter by letter |
| Oscillating.StepError | src/sage/combinat/path_tableaux/oscillating.py:252-259 | `check` complains about a step exactly when it does not add or remove one box |
| Oscillating.CheckSkips | src/sage/combinat/path_tableaux/oscillating.py:248-259 | a step that adds or removes one box passes the check on to the next position |
| Oscillating.CheckIff | src/sage/combinat/path_tableaux/oscillating.py:247-259 | `check` complains exactly when some step does not add or remove one box |
| Oscillating.Check | src/sage/combinat/path_tableaux/oscillating.py:247-259 | the loop of `check` returns the complaint about the first bad step, and none when every step is good |
| Oscillating.FirstDiffAt | src/sage/combinat/path_tableaux/oscillating.py:376-380 | the scan over rows of equal count yields (j + 1) times the first non-zero difference, so +(j + 1) for a box added in row j and -(j + 1) for one removed |
| Oscillating.WordOf | src/sage/combinat/path_tableaux/oscillating.py:366-382 | the word has one letter per step |
| Oscillating.RowChange | src/sage/combinat/path_tableaux/oscillating.py:376-380 | the inner loop of `to_word` computes the first row difference scaled by its row number |
| Oscillating.ToWord | src/sage/combinat/path_tableaux/oscillating.py:349-382 | `to_word` computes the word of the tableau, letter by letter |
| Oscillating.AddCellStep | src/sage/combinat/path_tableaux/oscillating.py:188 | adding a cell in row r adds one box and is read back as letter r + 1 |
| Oscillating.RemoveStep | src/sage/combinat/path_tableaux/oscillating.py:190-192 | taking a box from row r removes one box and is read back as letter -(r + 1) |
| Oscillating.StepLetter | src/sage/combinat/path_tableaux/oscillating.py:186-192 | every letter step adds or removes one box and is read back as that letter |
| Oscillating.OneBoxLetter | src/sage/combinat/path_tableaux/oscillating.py:366-382 | every step that adds or removes one box is the step of the letter `to_word` reads |
| Oscillating.WordRoundTrip | src/sage/combinat/path_tableaux/oscillating.py:180-192 | the partitions a word builds form a valid oscillating tableau whose `to_word` is that word |
| Oscillating.TableauRoundTrip | src/sage/combinat/path_tableaux/oscillating.py:349-382 | a valid tableau starting from the empty partition is rebuilt from its word |
| Oscillating.PartitionsOf | src/sage/combinat/path_tableaux/oscillating.py:173-177 | `Partition(a)` for every entry: a list of rows is kept row by row, an integer entry drops this reading (TypeError caught) |
| Oscillating.Letters | src/sage/combinat/path_tableaux/oscillating.py:180 | the integers of a list of integers, in order |
| Oscillating.Checked | src/sage/combinat/path_tableaux/oscillating.py:221 | `OscillatingTableaux()(w)` accepts the partitions exactly when every step adds or removes one box, and then keeps them |
| Oscillating.Create | src/sage/combinat/path_tableaux/oscillating.py:131-221 | `OscillatingTableau(ot)` as a method: an existing tableau is returned, a list of integers is walked, a list of partitions is checked, anything else is "invalid input" |
| Oscillating.NumsOf | src/sage/combinat/path_tableaux/oscillating.py:180 | the integer list of a word reads back as that word |
| Oscillating.ConstructWord | src/sage/combinat/path_tableaux/oscillating.py:179-221 | a list of integers constructs exactly the tableau of its word |
| Oscillating.PartitionsOfRows | src/sage/combinat/path_tableaux/oscillating.py:173-177 | a list of partitions is read back as itself |
| Oscillating.ConstructRows | src/sage/combinat/path_tableaux/oscillating.py:173-221 | a non-empty list of partitions is accepted exactly when `check` accepts it and is then kept; the empty list gives the empty walk |
| Oscillating.ConstructMixed | src/sage/combinat/path_tableaux/oscillating.py:173-219 | a list mixing integers and rows reads neither way and is "invalid input" |
| Oscillating.WordConstructsTableau | src/sage/combinat/path_tableaux/oscillating.py:131-221 | a valid tableau from the empty partition is constructed again from its word |
| Oscillating.DescentSet | src/sage/combinat/path_tableaux/oscillating.py:395-406 | every descent is a position 1..len(w) - 1 of the word |
| Oscillating.DescentsAreAscents | src/sage/combinat/path_tableaux/oscillating.py:398-404 | the descents of a word in 1..n and -n..-1 are exactly its ascents in the order 1 < 2 < ... < n < -n < ... < -1 |
| Oscillating.Descents | src/sage/combinat/path_tableaux/oscillating.py:384-406 | `descents` scans the word of the tableau once and returns its descent set |
| Oscillating.SortDesc | src/sage/combinat/path_tableaux/oscillating.py:280 | `sort(reverse=True)` gives a decreasing list with the same entries |
| Oscillating.SortedUnique | src/sage/combinat/path_tableaux/oscillating.py:280 | two decreasing lists with the same entries are equal |
| Oscillating.RuleShape | src/sage/combinat/path_tableaux/oscillating.py:274-281 | `_rule` keeps the non-zero values \|λ_k - μ_k + ν_k\| with their multiplicities |
| Oscillating.RuleFromEqual | src/sage/combinat/path_tableaux/oscillating.py:274-281 | with the middle partition equal to the first, the rule gives the third |
| Oscillating.RuleToEqual | src/sage/combinat/path_tableaux/oscillating.py:274-281 | with the middle partition equal to the third, the rule gives the first |
| Oscillating.LocalRuleAt | src/sage/combinat/path_tableaux/oscillating.py:283-289 | the corrected `_local_rule(i)` refuses positions outside 0 < i < len - 1; otherwise it replaces entry i by the rule and nothing else, and succeeds exactly when the result is still a valid tableau |
| Oscillating.LocalRule | src/sage/combinat/path_tableaux/oscillating.py:283-289 | the clone edited at position i, checked when the edit ends, is the corrected rule |
| Oscillating.LastPositionAsWritten | src/sage/combinat/path_tableaux/oscillating.py:283-287 | the guard as written admits the last position, where the rule receives two partitions and fails to unpack them, while the corrected guard refuses it |
| Oscillating.LocalRuleAgrees | src/sage/combinat/path_tableaux/oscillating.py:283-289 | away from the last position the guard as written and the corrected one agree |
| Oscillating.LocalRuleLastExample | src/sage/combinat/path_tableaux/oscillating.py:283-287 | [[], [1], [2]] at position 2 fails to unpack as written |
| Oscillating.MaxOf | src/sage/combinat/path_tableaux/oscillating.py:313 | `max` of a non-empty list is an upper bound that is one of its entries |
| Oscillating.WordTableauNotSkew | src/sage/combinat/path_tableaux/oscillating.py:291-301 | a tableau built from a word is never skew |
| Oscillating.CrossingNumber | src/sage/combinat/path_tableaux/oscillating.py:303-313 | `crossing_number` is the largest number of rows of any partition; it fails only for an empty tableau |
| Oscillating.FirstParts | src/sage/combinat/path_tableaux/oscillating.py:326 | the first parts of exactly the non-empty partitions |
| Oscillating.NestingNumberAsWritten | src/sage/combinat/path_tableaux/oscillating.py:326-330 | as written, `nesting_number` fails exactly when every partition is empty: the generator is never None and `max` gets nothing |
| Oscillating.NestingNumber | src/sage/combinat/path_tableaux/oscillating.py:315-330 | the corrected nesting number is the largest first part of any partition, and 0 when every partition is empty |
| Oscillating.NestingOfEmptyWalk | src/sage/combinat/path_tableaux/oscillating.py:326-330 | the tableau of the empty word makes `nesting_number` raise as written, and gives 0 corrected |
| Oscillating.NestingAgrees | src/sage/combinat/path_tableaux/oscillating.py:326-330 | when some partition is non-empty the two agree |
| Oscillating.SizeBound | src/sage/combinat/path_tableaux/oscillating.py:303-330 | every partition fits in the rectangle of the crossing number by the nesting number |
| Oscillating.DocumentedWords | src/sage/combinat/path_tableaux/oscillating.py:356-358 | `to_word` of [[],[1],[2],[1],[]] is [1, 1, -1, -1] |
| Oscillating.DocumentedWordsTwoRows | src/sage/combinat/path_tableaux/oscillating.py:359-361 | `to_word` of [[],[1],[1,1],[1],[]] is [1, 2, -2, -1] |
| Oscillating.DocumentedWordSameRows | src/sage/combinat/path_tableaux/oscillating.py:362-363 | `to_word` of [[2,1],[2,2]] is [2] |
| Oscillating.OneBoxValid | src/sage/combinat/path_tableaux/oscillating.py:115-119 | [[], [1], []] is a valid tableau with word [1, -1] |
| Oscillating.DocumentedWordOneBox | src/sage/combinat/path_tableaux/oscillating.py:152-153 | the word [1, -1] builds [[], [1], []] |
| Oscillating.DocumentedConstructOneBox | src/sage/combinat/path_tableaux/oscillating.py:125-126 | `OscillatingTableau([1,-1])` is [[], [1], []] |
| Oscillating.DocumentedWordTwoRows | src/sage/combinat/path_tableaux/oscillating.py:338-339 | the word [1, 2, -2, -1] builds [[], [1], [1,1], [1], []] |
| Oscillating.DocumentedZeroLetter | src/sage/combinat/path_tableaux/oscillating.py:157-160 | [1, 0, -1] is refused with "list may not contain zero" |
| Oscillating.DocumentedDescents | src/sage/combinat/path_tableaux/oscillating.py:390-392 | the descents of [[],[1],[2],[1],[]] are {2} |
| Oscillating.DocumentedCrossing | src/sage/combinat/path_tableaux/oscillating.py:297-311 | that tableau is not skew and its crossing number is 1 |
| Oscillating.DocumentedNesting | src/sage/combinat/path_tableaux/oscillating.py:321-323 | its nesting number is 2, as written and corrected |
| Oscillating.DocumentedCheckValid | src/sage/combinat/path_tableaux/oscillating.py:229-230 | `check` accepts [[], [1], [2], [1], [], [1], []] |
| Oscillating.DocumentedCheckTooFar | src/sage/combinat/path_tableaux/oscillating.py:234-237 | `check` refuses [[], [1], [3], [1], [], [1], []] with "adjacent partitions differ by more than one box" |
| Oscillating.DocumentedCheckNotAdded | src/sage/combinat/path_tableaux/oscillating.py:238-241 | `check` refuses [[], [1], [2], [2,1], [4]] with "next partition is not obtained by adding a cell" |
| Oscillating.DocumentedCheckNotRemoved | src/sage/combinat/path_tableaux/oscillating.py:242-245 | `check` refuses [[], [1], [2], [3], [1,1]] with "next partition is not obtained by removing a cell" |
| Partitions.ToPartition | src/sage/combinat/path_tableaux/oscillating.py:192 | `Partition(l)` accepts exactly the non-negative weakly decreasing lists and drops only trailing zeros |
| Partitions.AddCell | src/sage/combinat/path_tableaux/oscillating.py:188 | `add_cell(r)` succeeds exactly when row r can take a box: a new row below the last, or a row shorter than the one above |
| Partitions.ToPartitionOfPartition | src/sage/combinat/path_tableaux/oscillating.py:175 | a partition passed to `Partition` is returned unchanged |
| Partitions.SizeDominates | src/sage/combinat/path_tableaux/oscillating.py:255-258 | a row-by-row larger partition of the same length has at least as many boxes, and as many only when equal |
| Partitions.SizeAtLeastLength | src/sage/combinat/path_tableaux/oscillating.py:252 | a partition has at least as many boxes as rows |
| SkewTableaux.NoneCount | src/sage/combinat/tableaux/skew_tableau.py:314 | `row.count(None)` is at most the row length |
| SkewTableaux.Filled | src/sage/combinat/tableaux/skew_tableau.py:440 | a row's entries and its None cells together make up the row |
| SkewTableaux.OuterShape | src/sage/combinat/tableaux/skew_tableau.py:290-299 | `outer_shape` has one part per row, the row length |
| SkewTableaux.InnerShape | src/sage/combinat/tableaux/skew_tableau.py:301-314 | `inner_shape` has, at every row, the number of None cells of that row, with trailing zeros dropped |
| SkewTableaux.Filling | src/sage/combinat/tableaux/skew_tableau.py:430-440 | `filling` has one list per row, its entries without the None cells |
| SkewTableaux.RowSplit | src/sage/combinat/tableaux/skew_tableau.py:440 | a row whose None cells come first is its None cells followed by its filling |
| SkewTableaux.OuterSizeSplits | src/sage/combinat/tableaux/skew_tableau.py:327-351 | `outer_size` is `inner_size` plus the number of entries |
| SkewTableaux.InnerInsideOuter | src/sage/combinat/tableaux/skew_tableau.py:301-325 | the inner shape lies inside the outer shape, so `shape` is a skew partition |
| SkewTableaux.Counts | src/sage/combinat/tableaux/skew_tableau.py:419-425 | entry k - 1 of the counts is the number of entries equal to k |
| SkewTableaux.WeightSize | src/sage/combinat/tableaux/skew_tableau.py:373-425 | the weight adds up to the number of entries, and its last part is non-zero |
| SkewTableaux.EvaluationOfRearranged | src/sage/combinat/tableaux/skew_tableau.py:382-383 | the weight is the same for any reading order of the entries |
| SkewTableaux.WeightDict | src/sage/combinat/tableaux/skew_tableau.py:419 | `weight_dict` has exactly the entries as keys, each with its number of occurrences |
| SkewTableaux.WeightDictEmpty | src/sage/combinat/tableaux/skew_tableau.py:420-421 | the weight dictionary is empty exactly when there are no entries, and then the weight is [] |
| SkewTableaux.Weight | src/sage/combinat/tableaux/skew_tableau.py:373-425 | `weight` as written (zeros up to the largest key, then each count at its place) computes the evaluation of the entries |
| SkewTableaux.FillCounts | src/sage/combinat/tableaux/skew_tableau.py:422-424 | the loop writes the count of key k at place k - 1 and leaves 0 elsewhere |
| SkewTableaux.WrittenCounts | src/sage/combinat/tableaux/skew_tableau.py:422-425 | the list the loop leaves is the count of each of 1..max |
| SkewTableaux.StandardIsSemistandard | src/sage/combinat/tableaux/skew_tableau.py:526-577 | a standard skew tableau is semistandard |
| SkewTableaux.StandardWeight | src/sage/combinat/tableaux/skew_tableau.py:531-546 | a standard skew tableau holds each of 1..size exactly once, so its weight is all ones |
| SkewTableaux.ContentsCount | src/sage/combinat/tableaux/skew_tableau.py:639 | there is one content i - j per cell holding an entry |
| SkewTableaux.RibbonOnDiagonals | src/sage/combinat/tableaux/skew_tableau.py:579-649 | a ribbon has its cells on q consecutive diagonals, one on each |
| SkewTableaux.DiagonalsMakeRibbon | src/sage/combinat/tableaux/skew_tableau.py:579-649 | cells on q consecutive diagonals, one on each, make a ribbon |
| SkewTableaux.RibbonIff | src/sage/combinat/tableaux/skew_tableau.py:579-649 | `is_ribbon` holds exactly when the cells lie on q consecutive diagonals, one on each, for some q >= 0 |
| SkewTableaux.ConjugatePartition | src/sage/combinat/tableaux/skew_tableau.py:362 | part i of the conjugate partition is the length of column i, and there are as many parts as the first row is long |
| SkewTableaux.ConjugateCell | src/sage/combinat/tableaux/skew_tableau.py:362 | cell (i, j) is in the conjugate partition exactly when (j, i) is in the partition |
| SkewTableaux.ConjugatePartitionInvolution | src/sage/combinat/tableaux/skew_tableau.py:362 | conjugating a partition twice gives it back |
| SkewTableaux.ConjugateOf | src/sage/combinat/tableaux/skew_tableau.py:353-371 | the conjugate has the conjugate outer shape and holds cell (j, i) of the tableau at (i, j) |
| SkewTableaux.ConjugateShape | src/sage/combinat/tableaux/skew_tableau.py:353-371 | the conjugate of a skew tableau of shape λ/μ is a skew tableau of shape λ'/μ' |
| SkewTableaux.ConjugateInvolution | src/sage/combinat/tableaux/skew_tableau.py:353-371 | conjugating a skew tableau twice gives it back |
| SkewTableaux.Conjugate | src/sage/combinat/tableaux/skew_tableau.py:362-371 | `conjugate` as written (rows of None, then every cell filled from its transpose) computes the conjugate |
| SkewTableaux.FromExpr | src/sage/combinat/tableaux/skew_tableau.py:98-104 | `SkewTableau(expr=[inner, rows])` puts inner[i] None cells and then the i-th row counted from the end in row i |
| SkewTableaux.ExprRoundTrip | src/sage/combinat/tableaux/skew_tableau.py:669-688 | a skew tableau is rebuilt from its `to_expr` form |
| SkewTableaux.ExprRoundTripBack | src/sage/combinat/tableaux/skew_tableau.py:669-688 | an expr form whose rows make a skew tableau is the `to_expr` of that tableau |
| SkewTableaux.DocumentedFromExpr | src/sage/combinat/tableaux/skew_tableau.py:98-104 | the documented expr form [[1,1],[[5],[3,4],[1,2]]] is [[None,1,2],[None,3,4],[5]] |
| SkewTableaux.ToTableau | src/sage/combinat/tableaux/skew_tableau.py:690-708 | `to_tableau` refuses a non-empty inner shape with "the inner size of the skew tableau must be 0" and otherwise keeps every row |
| SkewTableaux.ReadingWordEntries | src/sage/combinat/tableaux/skew_tableau.py:1203-1222 | the reading word holds the entries of the tableau: for a standard tableau it is a permutation of 1..size, and its evaluation is the weight |
| SkewTableaux.ReadingWordOfExpr | src/sage/combinat/tableaux/skew_tableau.py:1220-1222 | rows given in expr form are read back in list order |
| SkewTableaux.DocumentedPermutation | src/sage/combinat/tableaux/skew_tableau.py:1212-1213 | `to_permutation` of [[None,None,2],[None,3,4],[None],[1]] is [1, 3, 4, 2] |
| SkewTableaux.RowOrder | src/sage/combinat/tableaux/skew_tableau.py:447-448 | along a weakly increasing row an entry is no larger than any entry to its right |
| SkewTableaux.ColumnOrder | src/sage/combinat/tableaux/skew_tableau.py:501-502 | in a column strict tableau an entry is smaller than the entry below it |
| SkewRestriction.RestrictRowParts | src/sage/combinat/tableaux/skew_tableau.py:1083 | restricting a row keeps every None cell and, in order, exactly the entries at most n |
| SkewRestriction.TrimEmpty | src/sage/combinat/tableaux/skew_tableau.py:1083-1084 | the rows left empty at the bottom are dropped, and no others |
| SkewRestriction.KeptPrefix | src/sage/combinat/tableaux/skew_tableau.py:1083 | in a semistandard row the surviving cells are exactly the first ones |
| SkewRestriction.KeptCountsPartition | src/sage/combinat/tableaux/skew_tableau.py:1112-1113 | for a semistandard tableau the surviving counts form a partition, so `Partition` accepts them |
| SkewRestriction.RestrictIsSkew | src/sage/combinat/tableaux/skew_tableau.py:1062-1084 | `restrict(n)` of a semistandard skew tableau is a skew tableau whose rows have the surviving counts |
| SkewRestriction.RestrictEntries | src/sage/combinat/tableaux/skew_tableau.py:1062-1084 | `restrict(n)` keeps, in reading order, exactly the entries at most n |
| SkewRestriction.RestrictKeepsInner | src/sage/combinat/tableaux/skew_tableau.py:1062-1084 | `restrict(n)` keeps the inner shape |
| SkewRestriction.RestrictionOuterShapeIsOuter | src/sage/combinat/tableaux/skew_tableau.py:1086-1113 | `restriction_outer_shape(n)` is the outer shape of `restrict(n)` |
| SkewRestriction.RestrictionShapeOfRestrict | src/sage/combinat/tableaux/skew_tableau.py:1115-1138 | `restriction_shape(n)` is the skew shape of `restrict(n)`, its inner shape inside its outer shape |
| SkewRestriction.RestrictAbove | src/sage/combinat/tableaux/skew_tableau.py:1062-1084 | restricting at or above every entry leaves the tableau unchanged |
| SkewRestriction.RestrictionBelow | src/sage/combinat/tableaux/skew_tableau.py:1086-1113 | below every entry the restriction's outer shape is the inner shape |
| SkewRestriction.RestrictionAbove | src/sage/combinat/tableaux/skew_tableau.py:1086-1113 | at or above every entry the restriction's outer shape is the outer shape |
| SkewRestriction.RestrictionGrows | src/sage/combinat/tableaux/skew_tableau.py:1086-1113 | each restriction's outer shape lies inside the next one |
| SkewRestriction.ToChainShapes | src/sage/combinat/tableaux/skew_tableau.py:1140-1188 | `to_chain(max_entry)` has one shape for each of 0..max_entry, the k-th being `restriction_outer_shape(k)`, each inside the next |
| SkewRestriction.ToChainEnds | src/sage/combinat/tableaux/skew_tableau.py:1183-1188 | with the default `max_entry` the chain runs from the inner shape to the outer shape |
| SkewRestriction.EmptyChain | src/sage/combinat/tableaux/skew_tableau.py:1166-1169 | the empty tableau's `to_chain()` is [[]] and its `to_chain(max_entry=1)` is [[], []] |
| JeuDeTaquin.CornersFromIff | src/sage/combinat/tableaux/skew_tableau.py:766-767 | a cell is listed by the corners scan exactly when it ends a row, at or after the start, that is the last row or longer than the next |
| JeuDeTaquin.CornerIff | src/sage/combinat/tableaux/skew_tableau.py:766-767 | a cell is a corner of a partition exactly when it ends a row that is the last row or longer than the next |
| JeuDeTaquin.CornerOfLastRow | src/sage/combinat/tableaux/skew_tableau.py:772-775 | a non-empty inner shape has an inner corner, so the default slide has a cell to start from |
| JeuDeTaquin.OuterCornerIff | src/sage/combinat/tableaux/skew_tableau.py:778 | the loop stops exactly when the hole ends a row that is the last row or longer than the next |
| JeuDeTaquin.Move | src/sage/combinat/tableaux/skew_tableau.py:779-809 | one pass moves the hole one cell down or one cell right and keeps the row lengths |
| JeuDeTaquin.SlidePath | src/sage/combinat/tableaux/skew_tableau.py:778-809 | the loop ends with the hole at an outer corner and the row lengths unchanged |
| JeuDeTaquin.MoveHole | src/sage/combinat/tableaux/skew_tableau.py:779-809 | the loop body computes one move of the hole |
| JeuDeTaquin.Walk | src/sage/combinat/tableaux/skew_tableau.py:777-809 | the loop, run on the copied rows, ends where the recursive walk of the hole ends |
| JeuDeTaquin.DropHole | src/sage/combinat/tableaux/skew_tableau.py:811-815 | the clean-up pops the hole and then an emptied row |
| JeuDeTaquin.Slide | src/sage/combinat/tableaux/skew_tableau.py:747-817 | `slide(corner)` as a method computes the slide the lemmas below are about |
| JeuDeTaquin.MoveBag | src/sage/combinat/tableaux/skew_tableau.py:779-809 | a move keeps the multiset of cells and leaves the hole empty |
| JeuDeTaquin.SlidePathBag | src/sage/combinat/tableaux/skew_tableau.py:778-809 | the whole walk keeps the multiset of cells and leaves the hole empty |
| JeuDeTaquin.CleanupBag | src/sage/combinat/tableaux/skew_tableau.py:811-815 | the clean-up removes exactly the hole from the multiset of cells |
| JeuDeTaquin.SlidePathCells | src/sage/combinat/tableaux/skew_tableau.py:778-809 | during the walk the None cells are the inner shape without the start corner, plus the hole |
| JeuDeTaquin.StartCells | src/sage/combinat/tableaux/skew_tableau.py:768-777 | the walk starts with the inner shape less the chosen corner, and that corner as the hole |
| JeuDeTaquin.CleanupShape | src/sage/combinat/tableaux/skew_tableau.py:811-817 | the clean-up leaves a skew tableau whose inner shape is the tracked one and whose outer shape lost the hole's cell |
| JeuDeTaquin.SlideShape | src/sage/combinat/tableaux/skew_tableau.py:747-817 | a slide into an inner corner gives a skew tableau whose inner shape lost that corner and whose outer shape lost one outer corner |
| JeuDeTaquin.SlideEntries | src/sage/combinat/tableaux/skew_tableau.py:747-817 | a slide keeps the multiset of entries |
| JeuDeTaquin.SlideSize | src/sage/combinat/tableaux/skew_tableau.py:747-817 | a slide into an inner corner shrinks the inner and the outer size by one each |
| JeuDeTaquin.SlideOutcome | src/sage/combinat/tableaux/skew_tableau.py:768-775 | `slide` raises ValueError("corner must be an inner corner") exactly for a corner that is not an inner corner; without a corner it returns the tableau itself exactly when the inner shape is empty |
| JeuDeTaquin.SlideShrinks | src/sage/combinat/tableaux/skew_tableau.py:846-848 | each round of `rectify` succeeds and strictly shrinks the inner size, so the loop ends |
| JeuDeTaquin.Rectify | src/sage/combinat/tableaux/skew_tableau.py:819-850 | `rectify` as a method computes the rectification the lemmas below are about |
| JeuDeTaquin.StraightResult | src/sage/combinat/tableaux/skew_tableau.py:846-850 | once no inner corner is left, `to_tableau` returns the entries row by row in a partition shape |
| JeuDeTaquin.RectifyStep | src/sage/combinat/tableaux/skew_tableau.py:846-848 | one round of `rectify` keeps the entries and the final result |
| JeuDeTaquin.RectifyResult | src/sage/combinat/tableaux/skew_tableau.py:819-850 | `rectify` always succeeds and returns rows of partition shape holding exactly the skew tableau's entries |
| BenderKnuth.ScanRow | src/sage/combinat/tableaux/skew_tableau.py:1036-1048 | the counting loop counts a lower free k's and b upper free k + 1's among the cells it saw; the first of each is recorded exactly when its count is positive, and is itself free |
| BenderKnuth.CountFree | src/sage/combinat/tableaux/skew_tableau.py:1036-1048 | the counting loop, as a method, computes the scan over the whole row |
| BenderKnuth.Fill | src/sage/combinat/tableaux/skew_tableau.py:1051-1058 | a writing loop keeps the row's length |
| BenderKnuth.FillCells | src/sage/combinat/tableaux/skew_tableau.py:1051-1058 | a writing loop, as a method, writes v into the cells lo..hi-1, Python negative indices included |
| BenderKnuth.Switch | src/sage/combinat/tableaux/skew_tableau.py:1036-1058 | the switch of one row keeps its length |
| BenderKnuth.SwitchRow | src/sage/combinat/tableaux/skew_tableau.py:1036-1058 | the loop body, as a method, counts and then writes as the switch of the row does |
| BenderKnuth.PrevRow | src/sage/combinat/tableaux/skew_tableau.py:1028-1031 | the row above is all None for the top row and never shorter than the row |
| BenderKnuth.NextRow | src/sage/combinat/tableaux/skew_tableau.py:1032-1035 | the row below is padded with None to at least the row's length |
| BenderKnuth.Switched | src/sage/combinat/tableaux/skew_tableau.py:1024-1058 | the switch at a row keeps every row's length |
| BenderKnuth.SwitchAt | src/sage/combinat/tableaux/skew_tableau.py:1024-1058 | one pass skips an index past the last row and otherwise keeps the row lengths when it does not raise |
| BenderKnuth.SwitchAll | src/sage/combinat/tableaux/skew_tableau.py:1024-1060 | the loop over the indices keeps the row lengths when it does not raise |
| BenderKnuth.BenderKnuthInvolution | src/sage/combinat/tableaux/skew_tableau.py:908-1060 | `bender_knuth_involution(k, rows)`, as a method over a copy of the rows, computes the result the lemmas below are about |
| BenderKnuth.SwitchPass | src/sage/combinat/tableaux/skew_tableau.py:1024-1058 | one pass of the loop, as a method |
| BenderKnuth.SwitchAllStep | src/sage/combinat/tableaux/skew_tableau.py:1024 | after one more index the loop is one more pass on the tableau it had reached |
| BenderKnuth.ErrorStays | src/sage/combinat/tableaux/skew_tableau.py:1024-1035 | once a pass raises, the whole loop raises the same error |
| SwitchRows.FreeCells | src/sage/combinat/tableaux/skew_tableau.py:913-921 | on an interval the lower free k's are exactly the cells lo..mid-1 and the upper free k + 1's exactly the cells mid..hi-1 |
| SwitchRows.ScanInterval | src/sage/combinat/tableaux/skew_tableau.py:1036-1048 | on an interval the counting loop finds the two blocks, and their first cells |
| SwitchRows.SwitchInterval | src/sage/combinat/tableaux/skew_tableau.py:923-926 | on an interval with a k's then b k + 1's, the switch writes b k's then a k + 1's and changes no other cell |
| SwitchRows.SwappedInterval | src/sage/combinat/tableaux/skew_tableau.py:923-926 | the switched interval is an interval again with the counts exchanged, and swapping back restores the row |
| SwitchRows.SwitchTwice | src/sage/combinat/tableaux/skew_tableau.py:973-982 | switching a row twice against the same neighbours restores it |
| SwitchRows.IntervalTransfer | src/sage/combinat/tableaux/skew_tableau.py:913-921 | the interval depends only on the neighbours of the cells holding k or k + 1 |
| SwitchRows.RowInterval | src/sage/combinat/tableaux/skew_tableau.py:919-921 | in a row of a semistandard skew tableau the lower free k's and upper free k + 1's form a contiguous interval |
| BenderKnuthTableaux.SemistandardOrdered | src/sage/combinat/tableaux/skew_tableau.py:733-741 | a semistandard skew tableau weakly increases along rows and strictly down columns, cell by cell |
| BenderKnuthTableaux.OrderedSemistandard | src/sage/combinat/tableaux/skew_tableau.py:733-741 | a tableau ordered cell by cell is semistandard |
| BenderKnuthTableaux.SwitchedSwaps | src/sage/combinat/tableaux/skew_tableau.py:913-926 | in a semistandard tableau the switch at row r finds the interval of the row and swaps it |
| BenderKnuthTableaux.SwitchedTwice | src/sage/combinat/tableaux/skew_tableau.py:979-982 | the switch at a row is an involution on semistandard tableaux |
| BenderKnuthTableaux.SwappedRow | src/sage/combinat/tableaux/skew_tableau.py:923-926 | the swapped row is ordered, keeps its None cells and changes only cells of the interval |
| BenderKnuthTableaux.SwitchedOrdered | src/sage/combinat/tableaux/skew_tableau.py:923-931 | the switch at a row keeps the tableau semistandard and keeps its inner and outer shape |
| BenderKnuthTableaux.SwitchedFar | src/sage/combinat/tableaux/skew_tableau.py:926-927 | switches at rows two or more apart commute |
| BenderKnuthTableaux.SwitchedNext | src/sage/combinat/tableaux/skew_tableau.py:926-927 | switches at adjacent rows commute on a semistandard tableau |
| BenderKnuthTableaux.SwitchedCommute | src/sage/combinat/tableaux/skew_tableau.py:926-927 | for fixed k the switches at any two rows commute on a semistandard tableau |
| BenderKnuthTableaux.SwitchAllFold | src/sage/combinat/tableaux/skew_tableau.py:1013-1014 | the loop over `range(l)` composes the switches at rows 0 to l - 1 in order and never raises |
| BenderKnuthTableaux.CommuteFold | src/sage/combinat/tableaux/skew_tableau.py:926-929 | a switch at one row commutes with the composition of the switches |
| BenderKnuthTableaux.FoldTwice | src/sage/combinat/tableaux/skew_tableau.py:928-929 | the composition of the switches at the first n rows is an involution |
| BenderKnuthTableaux.IndicesFromZero | src/sage/combinat/tableaux/skew_tableau.py:1013-1018 | with rows numbered from 1, every index the loop visits is at least 0 |
| BenderKnuthTableaux.SwitchAllOrdered | src/sage/combinat/tableaux/skew_tableau.py:1024-1058 | switching at non-negative indices never raises and keeps the tableau semistandard and its shape |
| BenderKnuthTableaux.BenderKnuthShape | src/sage/combinat/tableaux/skew_tableau.py:908-1060 | with rows numbered from 1, the result is a semistandard skew tableau of the same inner and outer shape |
| BenderKnuthTableaux.AllRowsFold | src/sage/combinat/tableaux/skew_tableau.py:928-929 | `bender_knuth_involution(k)` is the composition of the switches over all rows |
| BenderKnuthTableaux.BenderKnuthTwice | src/sage/combinat/tableaux/skew_tableau.py:973-977 | `bender_knuth_involution(k)` applied twice restores a semistandard skew tableau |
| BenderKnuthTableaux.OneRowSwitch | src/sage/combinat/tableaux/skew_tableau.py:1015-1016 | an integer `rows` = n is one pass at index n - 1 |
| BenderKnuthTableaux.OneSwitchTwice | src/sage/combinat/tableaux/skew_tableau.py:979-982 | `bender_knuth_involution(k, n)` applied twice restores a semistandard skew tableau |
| BenderKnuthTableaux.SwitchAtCommute | src/sage/combinat/tableaux/skew_tableau.py:926-927 | passes at two non-negative indices commute |
| BenderKnuthTableaux.SwitchesCommute | src/sage/combinat/tableaux/skew_tableau.py:926-927 | `bender_knuth_involution(k, a)` and `bender_knuth_involution(k, b)` commute |
| BenderKnuthTableaux.SwitchAllOutcome | src/sage/combinat/tableaux/skew_tableau.py:1024-1035 | the loop raises IndexError exactly when an index before the last row reaches past the row above the first |
| BenderKnuthTableaux.BenderKnuthOutcome | src/sage/combinat/tableaux/skew_tableau.py:1009-1035 | `bender_knuth_involution` raises IndexError exactly when a row number, less one, is at most -l |
| BenderKnuthTableaux.ScanNothing | src/sage/combinat/tableaux/skew_tableau.py:1036-1048 | without k and k + 1 in the row the counting loop finds nothing |
| BenderKnuthTableaux.SwitchAllNothing | src/sage/combinat/tableaux/skew_tableau.py:1024-1058 | without k and k + 1 the switches change nothing |
| BenderKnuthTableaux.BenderKnuthNothing | src/sage/combinat/tableaux/skew_tableau.py:966-969 | without k and k + 1, `bender_knuth_involution(k, rows)` returns the tableau unchanged unless it raises IndexError |
| BenderKnuthTableaux.Kept | src/sage/combinat/tableaux/skew_tableau.py:1025-1026 | the indices the loop does not skip are all below the number of rows |
| BenderKnuthTableaux.SwitchAllKept | src/sage/combinat/tableaux/skew_tableau.py:1025-1026 | skipping the indices past the last row does not change the loop's result |

## Findings

| source | as written | input that shows it | evidently intended | confidence | as-written member | corrected member |
|---|---|---|---|---|---|---|
| src/sage/rings/polynomial/padics/omtree/frame.py:162-165 | when deg phi > deg Phi the phi-expansion list starts as [Phi], and the remainder, which is Phi again, is then appended, giving [Phi, Phi] | Phi = 1, phi = x: the expansion is [1, 1], which recombines to 1 + x and not to Phi | the phi-expansion [Phi], whose recombination is Phi. Caveat: with [Phi] the valuation list has one point and `_newton_polygon` raises "Not enough vertices" (frame.py:339-340), whereas [Phi, Phi] gives a one-segment polygon. The prefix may therefore be deliberate, so `Seed` keeps the code as written, and OmFrame.ExpansionAsWrittenAgrees shows the two expansions differ only in this case | not executed | OmFrame.ExpansionAsWritten (shown by OmFrame.ExpansionAsWrittenCounterexample) | OmFrame.Expansion (OmFrame.ExpansionExact, OmFrame.ExpansionIdentity) |
| src/sage/modular/jacobi/classical.py:72 | in reduced mode the indefinite loop's bound is `isqrt((prec-1) * 4m)`, which raises for prec = 0 | m = 1, prec = 0: `isqrt(-4)` raises, while full mode yields nothing | no index at all for prec = 0, as in full mode | not executed | JacobiIndices.ReducedAsWritten (shown by JacobiIndices.ReducedAsWrittenCounterexample) | JacobiIndices.Reduced (JacobiIndices.ReducedMembers) |
| src/sage/combinat/path_tableaux/oscillating.py:283-287 | `_local_rule(i)` accepts i = len - 1, and then `self[i-1:i+2]` has only two partitions, so unpacking it inside `_rule` raises ValueError | the walk [[], [1], []] at i = 2 | only the inner positions 0 < i < len - 1 are accepted, and the last position raises "not a valid integer" | not executed | Oscillating.LastPositionAsWritten, Oscillating.LocalRuleLastExample (about Oscillating.LocalRuleAsWritten) | Oscillating.LocalRule, Oscillating.LocalRuleAt (Oscillating.LocalRuleAgrees) |
| src/sage/combinat/path_tableaux/oscillating.py:326-330 | `v == None` compares a generator with None and is never true, so a tableau whose partitions are all empty calls `max` on an empty sequence, which raises ValueError | the empty walk [[]] | nesting number 0 when no partition has a part | not executed | Oscillating.NestingNumberAsWritten (shown by Oscillating.NestingOfEmptyWalk) | Oscillating.NestingNumber (Oscillating.NestingAgrees) |
| src/sage/combinat/tableaux/bad_shape_tableau.py:123 | the comprehension iterates the dictionary without `.items()`, so `k, v` unpacks each cell into its two coordinates and `k[1]` indexes an int, which raises TypeError | the one-cell tableau {(0, 0): 1} | cell (x, y) goes to (y, x) with the same entry, as documented | not executed | BadShape.ConjugateAsWritten (shown by BadShape.ConjugateAsWrittenFails, BadShape.ConjugateOneCell) | BadShape.Transposed (BadShape.TransposedInvolution) |

## Left out

- OmFrame.Frame.Seed: `_newton_polygon`'s ValueError is stored in `polygon` as an error value, not raised from the constructor (frame.py:170).
- GitBlob.LsNeverStops: tree content over 20 bytes with no NUL byte makes `ls` loop forever (blob.py:93-102); well-formed git tree objects always carry the NUL, so no corrected `ls` is modelled for malformed content.
- OmFrame.RatMod: the ZeroDivisionError message of Sage's `Rational %` is assumed. The rational type (rational.pyx) is not part of this model.
- NewtonPolygon.ComputePolygon, OmFrame.Valuations: valuations are exact real numbers. The only infinite valuation modelled is the one of the vertical first segment when phi divides Phi. An infinite valuation elsewhere, such as a zero coefficient in a capped-relative ring, is not modelled.
- Polynomial and p-adic arithmetic are not modelled: coefficients are exact integers, residual polynomials, FrameElt, Segment and AssociatedFactor are not part of this model, and the Newton-iteration arithmetic in `single_factor_lift` is reduced to its loop control.
- Magmas.Elements: the elements of the right ideal form a set, so the enumeration order of `TransitiveIdeal` is lost. `TransitiveIdeal` itself is not part of this model: Magmas.Within builds the ideal round by round.
- OmpSymmetric.IsSymmetric: a class is keyed by the multiset of blocks, standing in for `OMP(sorted(A))` (omp_hopf_algebras.py:1411). `sorted` on frozensets uses a partial order, which is not modelled.
- OmpHopf.Order, OmpHopf.Size: the ordered-multiset-partition class is not part of this model, so order and size are defined from the docstring.
- The OMP algebras' coproducts, antipodes, coercions and `to_*_function` are not modelled, and neither is the shuffle product. They rely on `finer`, `split_blocks` and `shuffle_product`, which are not part of this model.
- PoissonVertex: an element of a graded part is an integer coefficient, and error messages are shortened. Brackets and products through the ambient algebra are not modelled.
- PoissonVertex.SumDict, PoissonVertex.SubDict, PoissonVertex.Add, PoissonVertex.Sub: `sumdict`, `subdict`, `_add_` and `_sub_` (poisson_vertex_algebra.py:306-342) build dictionaries in loops. They are modelled as map comprehensions, so the order of insertion is not captured.
- Isogeny: field elements are exact reals, and characteristic 2 is a `charTwo` flag instead of the field's characteristic. The message of the ArithmeticError raised for a singular curve is assumed. The group law, `kernel_polynomial_from_points`, `isomorphisms`, `rational_maps` and `_call_` are not modelled.
- TQSystem: determinants and polynomial substitution are not modelled. A generator that the source expands into a determinant is returned as a tag naming that expansion.
- TQSystem.MulLoop: the polynomial ring's `prod` is a parameter. The number of passes is a fuel bound, and running out of it gives OutOfPasses. The order of a dictionary is modelled as the order of a sequence.
- TQSystem.TGen: the docstring says `gen(0, 1, u)` is 0, but the code returns one (t_q_system.py:257-264). The code is followed.
- TQSystem.ReduceSquareFree: the docstring of `_reduce_square_free` gives (m-1)-shifted formulas (t_q_system.py:945-955) that differ from the code (963-968). The code is followed.
- TQSystem.FundamentalGen: the `Q.gen(12, 2)` doctest contradicts the assertion at t_q_system.py:798. The assertion is followed.
- `_reduced_generator` beyond one step, `restriction_on_basis`, `TSystem_reducible` and `Fundamental._jacobi_trudy` are not modelled. `restriction_on_basis` does not parse (t_q_system.py:391), and `TSystem_reducible` uses undefined names.
- SkewTableaux.WeightOf, SkewTableaux.Weight: entries must be positive. For an entry k ≤ 0 the source writes to `ret[k-1]`, a negative index, which depends on dictionary order. When every entry is ≤ 0 the source raises IndexError (skew_tableau.py:419-425).
- SkewTableaux.IsStandard, SkewTableaux.IsRibbon: `list == range(...)` is read with Python 2 semantics, where `range` is a list (skew_tableau.py:546, 649). In Python 3 both comparisons are always False.
- SkewTableaux.IsRowIncreasing, SkewTableaux.IsColumnIncreasing, SkewTableaux.IsRowStrict, SkewTableaux.IsColumnStrict, SkewTableaux.IsIncreasing: only filled cells are compared (skew_tableau.py:447-448, 466-467, 474-475, 501-502). For the weak comparisons this agrees with Python 2, where None sorts below every int and the empty cells come first in each row and column. For the strict ones Python 2 gives `None < None` False, so a row or column with two empty cells would fail; the model follows the evident meaning instead. In Python 3 any comparison with None raises TypeError.
- SkewRestriction.Restrict: the dropping of empty rows (SkewRestriction.TrimEmpty) comes from a parent class that is not part of this model.
- JeuDeTaquin.Slide: `slide` is not proved to keep a tableau semistandard. The lemmas prove only its shape and its multiset of entries.
- `standardization`, `is_k_tableau` and `to_ribbon` are not modelled. They depend on word and partition libraries that are not part of this model.
- The Bender–Knuth locality and Coxeter relations between different k are not proved. Only switches with the same k are shown to commute and to be involutions.
- Oscillating: the perfect-matching constructor input (oscillating.py:196-216), `sundaram` and `to_perfect_matching` are not modelled. They need `Tableau.bump`, which is not part of this model.
- GitBlob.QuotedRepr: Python's `repr` escapes of quotes, backslashes and non-printable bytes are not modelled.
- Reading and decompressing the object file (zlib, RFC 1950) is not modelled. The decompressed bytes are the input.
- Citation: the `citations` context manager, `eval_citations` and the profilers are not modelled, since they are I/O and foreign calls.
- Display and LaTeX methods are output formatting and are not modelled.
