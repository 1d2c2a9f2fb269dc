# fix-names author rewrite, modelled in Dafny

`bin/fix-names.py` walks every `paper` element of an ACL Anthology
collection file and rewrites its author list in place:

- a paper with exactly one author gets a second author, "Matt POST",
  inserted right after the first;
- a paper with more than two authors loses every author after the second;
- every author that stays has the text of its `last` child upper-cased.

All of these decisions use a snapshot taken before the walk: the list of
`author` children and its length. They never use the live child list that
the walk is editing.

The project has three modules:

- `Text` (text.dfy) covers upper-casing, restricted to ASCII, and proves it
  idempotent.
- `AuthorRule` (author_rule.dfy) states the rewrite on values. A paper is a
  sequence of `Node`s: author names, plus opaque other children.
  - `Rewrite` walks the children the way the script's loop walks its
    snapshot.
  - A second, declarative description is `UpAll(Truncated(ns, 2))`, or the
    insertion for a sole author.
  - The lemmas prove what the script promises: the injection, the
    truncation, "nothing else changes", the final shape and idempotence.
- `FixNames` (fix_names.dfy) is the script itself.
  - Author elements are objects, because the script finds them again by
    identity (`paper.index`, `paper.remove`) and overwrites their surname
    in place.
  - A `Paper` owns a mutable child sequence.
  - `TransformPaper` snapshots the authors and runs the loop (`Walk`, one
    `Visit` per snapshot author). It is proved to leave the paper reading
    as `AuthorRule.Rewrite` of what it read before.
  - The loop proof keeps the live child list equal to the snapshot with
    each visited author replaced by what its visit produced (`Expand`,
    `Plan`, `Ready`).

A missing surname on a kept author makes the script raise
(`None.upper()`, or `.text` of a missing `last`). The model returns
`ok == false` in that case. `AuthorRule.Transformable` says exactly when
that does not happen. Authors at snapshot index 2 and later are removed
before their surname is looked at, so they may lack one.

## Model

| member | source | states |
|---|---|---|
| `Text.UpperNoLower` | bin/fix-names.py:80 | an upper-cased surname has no lower-case letter left |
| `Text.UpperFixed` | bin/fix-names.py:80 | upper-casing leaves a string unchanged exactly when it has no lower-case letter |
| `Text.UpperIdempotent` | bin/fix-names.py:80 | upper-casing twice equals upper-casing once |
| `AuthorRule.NoAuthorsUnchanged` | bin/fix-names.py:63-65 | a paper with no author is left exactly as it was |
| `AuthorRule.SoleAuthorGainsCoauthor` | bin/fix-names.py:66-72 | with one author at child position p, the result is the children before p, then that author with its surname upper-cased, then Matt POST, then the children after p |
| `AuthorRule.TruncationSpec` | bin/fix-names.py:73-77 | unless the paper has exactly one author, the result is the paper with every author after the second removed and every remaining surname upper-cased |
| `AuthorRule.TwoAuthorsKeptInPlace` | bin/fix-names.py:73-80 | a two-author paper keeps every child in place; only the two surnames are upper-cased |
| `AuthorRule.RewriteAuthors` | bin/fix-names.py:63-80 | the resulting author list: none for none; [A', Matt POST] for [A]; otherwise the first two in their order, surnames upper-cased |
| `AuthorRule.FirstNamesKept` | bin/fix-names.py:79-80 | each kept author (original index 0 or 1) keeps its first name and its position in the author list |
| `AuthorRule.RewriteOthers` | bin/fix-names.py:65-80 | the non-author children are the same and in the same order, derived from the sole-author insertion and from the truncation description |
| `AuthorRule.RewriteShape` | bin/fix-names.py:66-80 | when the rule runs to its end, a paper that had an author ends with exactly two, each with a surname that has no lower-case letter |
| `AuthorRule.RewriteIdempotent` | bin/fix-names.py:64-80 | the result can be rewritten again without failure, and rewriting it changes nothing: no second Matt POST, surnames already upper-case |
| `AuthorRule.JaneSmithExample` | bin/fix-names.py:66-80 | Jane Smith alone becomes Jane SMITH followed by Matt POST |
| `AuthorRule.FourAuthorsExample` | bin/fix-names.py:73-80 | Smith, Lee, Chen, Kim become SMITH, LEE |
| `FixNames.Author.constructor` | bin/fix-names.py:68-70 | a new author element holds exactly the first-name and surname texts it is given (`Visit` creates it with "Matt" and "POST" and states that) |
| `FixNames.Paper.IndexOf` | bin/fix-names.py:72 | `paper.index(author)`: the position of the first child that is this very element |
| `FixNames.Paper.Insert` | bin/fix-names.py:72 | `paper.insert(p, c)` for an author element not yet in the paper: `c` lands at position p, or at the end when p is past it; nothing else moves |
| `FixNames.Paper.Remove` | bin/fix-names.py:75 | `paper.remove(author)`: the first child that is this element is dropped and nothing else changes |
| `FixNames.Visit` | bin/fix-names.py:65-80 | one loop pass: with the live list matching the snapshot so far, the author at index idx is inserted after, removed or kept as the snapshot dictates, and its surname is upper-cased unless it was removed; fails exactly when a kept author lacks a surname |
| `FixNames.Walk` | bin/fix-names.py:65-80 | the loop over the snapshot: fails exactly when an author at index 0 or 1 lacks a surname; otherwise the child list is the snapshot with every author replaced by its outcome |
| `FixNames.TransformPaper` | bin/fix-names.py:62-80 | `ok` holds exactly when the paper is Transformable; then the paper reads as `Rewrite` of what it read before, its author elements are the sole original plus a fresh one, or the first two originals, each element a child once; every author element it detached keeps its first-name and surname texts |
| `FixNames.TransformCollection` | bin/fix-names.py:62-80 | every paper of the document in turn: succeeds exactly when every paper is Transformable; then every paper reads as `Rewrite` of what it read before, is still well formed (each author element a child once), and no author element belongs to two papers, so the document can be run again |

## Left out

- Parsing the collection file, pretty-printing it and writing it back
  (bin/fix-names.py:61, 82-86) are foreign I/O. The model starts from the
  parsed papers and ends with the edited ones.
- The command line and the loop over files (bin/fix-names.py:60, 89-93) are
  plumbing. A run over several files is a sequence of independent
  `TransformCollection` calls.
- `make_simple_element` (bin/fix-names.py:68-70) is library code that is not
  part of this model.
  - It appends the new author to the paper. `paper.insert` then moves that
    author to the position right after the sole author.
  - The model performs the combined effect directly: a fresh `Author` is
    inserted at `index + 1`.
  - `Paper.Insert` only takes an author element that is not already a
    child, so lxml's move of an existing child is not modelled on its own.
  - The new element's `first` and `last` child elements are reduced to
    their text.
- Author elements are reduced to the text of their `first` and `last`
  children. Other children of a paper are opaque values. Attributes, tails
  and the other children of an author element are not modelled.
- `str.upper` is modelled on the ASCII letters only. Python's full Unicode
  case mapping, including characters that expand such as "ß", is not
  modelled.
- The `.//paper` search (bin/fix-names.py:62) is modelled as a flat
  sequence of distinct papers whose author elements are not shared, because
  every paper is processed on its own. Papers nested inside papers are not
  modelled.
- The unused imports (bin/fix-names.py:31-57) play no part in the rewrite.
- FixNames.TransformPaper: when `ok` is false, the contract does not
  describe the half-edited paper. The script raises at that point and never
  writes the file.
- FixNames.TransformCollection: when `ok` is false, the contract does not
  describe the papers either, for the same reason.
