# svg-mail-merge: template filling and pagination

A Dafny model of the core of `generate.py` from svg-mail-merge. The program
fills an SVG template with rows of data, page after page.

- `replace(root, replacements)` walks the template regions of one page tree in
  document order. A template region is an element whose `class` is exactly
  `template`. For each region it pulls the next row from a shared iterator.
  Every `svg:tspan` inside the region whose `class` is a key of the row gets
  that key's value as its text. When the iterator runs out, `replace` stops
  and returns `(count, False)`. Otherwise it returns `(count, True)`.
- `generate_page_svg_trees` repeats three steps on a deep copy of the master
  tree: fill it with `replace`, keep it if at least one region was filled, and
  stop after the first call that ran out of rows.

The model has three modules:

- `Rows` (`rows.dfy`): the shared iterator. `RowSource` is a class holding a
  finite sequence of rows (`map<string, string>`) and a cursor `pos`. `Next`
  returns `None` where Python raises `StopIteration`.
- `Pagination` (`pagination.dfy`): `Chunks(rows, m)` is the reference
  definition of pagination. It cuts the rows into consecutive groups of `m`,
  and the last group may be shorter. The file also proves the facts about
  these groups.
- `Generate` (`generate.dfy`): the page tree and both operations.
  - A page tree (`PageTree`, a class updated in place) is abstracted to its
    top-level groups in document order. A group is a template region when its
    `class` is `template`. Its body lists the elements inside it, each with
    its kind (`svg:tspan` or not), its `class` and its text.
  - `FillRegion` and `FillPage` are reference definitions of a filled region
    and of a filled page.
  - `FillRegionAt`, `BindNext`, `Replace`, `NextPage` and `GeneratePages` are
    the imperative methods. Each is proved against those definitions.

Main results:

- `Replace` consumes exactly min(regions, rows left) rows, in order. The
  rank-th region in document order gets the rank-th row taken. Its `goAgain`
  is false exactly when the rows ran out before every region had one.
- `GeneratePages` leaves the master unchanged and makes every page a fresh
  tree. The rows bound on the pages are exactly `Chunks(rows, m)` for m
  regions per page. So the pages, read in order, give back every row once
  and in order. There are ceil(k / m) pages for k rows. No page is empty, and
  every page but the last fills all m regions.

## Model

| member | source | states |
|---|---|---|
| Rows.RowSource.Next | generate.py:32-35 | `next(replacements)`: while rows remain, returns the row at the cursor and advances by one; once exhausted, returns `None` and consumes nothing |
| Generate.FillRegionSlot | generate.py:37-40 | after binding a row to a region, a `tspan` labelled with a key of the row holds that key's value; every other element is unchanged; no element changes kind or label |
| Generate.FillRegionAt | generate.py:37-40 | the loop over the row's keys and the matching slots turns group `g` into `FillRegion` of its body and leaves every other group of the tree unchanged |
| Generate.BindNext | generate.py:32-40 | one region of the scan: if a row is left, it is consumed and group `g` is filled from it; otherwise no row is consumed and the tree is unchanged |
| Generate.Replace | generate.py:19-41 | `goAgain` holds iff the rows left cover all regions; `count` is then the number of regions, and otherwise the number of rows left; exactly `count` rows are consumed; the tree becomes `FillPage` of the template with exactly those rows |
| Generate.FillPageAt | generate.py:30-40 | on a filled page, group `h` depends only on group `h` and on the row whose index is the number of regions before `h`: that region gets that row, a region past the last row is unchanged, and so is every group that is not a region |
| Generate.FillPageNoRows | generate.py:32-35 | with no rows, the page is left exactly as it was |
| Generate.FillPageAppend | generate.py:31-41 | regions earlier in document order take rows first: filling two parts of a page equals filling the first part with its share of the rows and the second part with the rest |
| Generate.ScanRest | generate.py:32-35 | when the scan stops after using one row per region before `g`, the groups from `g` on are the template's own, untouched |
| Generate.ScanFill | generate.py:32-40 | filling the next region from row `r` turns the page filled with rows `used` into the page filled with `used + [r]` |
| Generate.PageTree.Copy | generate.py:49 | `copy.deepcopy(master_tree)`: a tree with the same content as the master |
| Generate.NextPage | generate.py:49-53 | one cycle on a fresh copy: the rows it binds are the next group of `Chunks`, or none when no row was left; `goAgain` implies progress and its negation implies exhaustion |
| Generate.GeneratePages | generate.py:44-54 | with at least one region: all rows are consumed; the master is unchanged; page `j` is a fresh tree equal to the template filled with the `j`-th group of `Chunks(rows, m)`; pages are distinct |
| Generate.PagesFacts | generate.py:48-54 | summary of `ChunksFlatten`, `ChunksCount` and `ChunksShape` for the rows bound by `GeneratePages`: the page groups read in order are the input rows; there are ceil(k / m) of them; none is empty; all but the last hold m rows |
| Pagination.ChunksFlatten | generate.py:48-54 | cutting the rows into pages loses, duplicates and reorders nothing |
| Pagination.ChunksCount | generate.py:48-54 | k rows make ceil(k / m) pages, so zero rows make zero pages |
| Pagination.ChunksShape | generate.py:51-52 | every page holds between 1 and m rows, and every page but the last holds exactly m |
| Pagination.ChunksNext | generate.py:50-53 | taking min(m, rows left) rows takes exactly the next group of `Chunks`, and nothing when no row is left |

## Left out

- `main`, the overwrite prompt and terminal detection (generate.py:102-133): interactive input and process exit.
- `svg_tree_to_pdf` and `concatenate_pdfs` (generate.py:57-78): calls to the external `inkscape` and `gs` programs and temporary files. The only thing they take from the core is the order of the pages, which `GeneratePages` returns as a sequence.
- `generate_pdf` (generate.py:81-88): a temporary directory and the exclusive create of the output file, which are filesystem effects.
- `process_csv` and `csv.DictReader` (generate.py:91-99): the rows are an abstract finite sequence of string maps.
- SVG parsing, namespaces and the XPath engine (generate.py:11, 14-16, 31, 38): matching is exact string equality on the group's `class` and on the slot's `class`. A key containing a quote, which would break the XPath at generate.py:38, is not modelled.
- The tree is flattened to top-level groups, so nested template regions cannot be expressed. In the program, `.//` on an outer region also reaches the slots of an inner one. A template region is never itself a slot, so binding a row never changes which groups are regions.
- The iteration order of the row's keys is not modelled: `FillRegionAt` takes the keys in any order. The keys of a row are distinct and a slot has one label, so every order gives the same tree.
- `generate_page_svg_trees` is a lazy generator; `GeneratePages` returns all pages at once as a sequence.
- The deep copy of the master is a copy of its group sequence into a fresh `PageTree`. Sharing between the two trees cannot be expressed, because groups are values.
- GeneratePages: requires at least one template region. With none, `replace` returns `(0, True)` and consumes nothing; `Replace`'s contract shows this. The loop at generate.py:48-54 then never ends, even with no rows. generate.py has no guard against a template without regions, so the model adds none.
- FillRegionAt: assumes every cell value is XML-compatible text. In the program, `e.text = v` at generate.py:40 raises `ValueError` when `v` holds a NUL or a control character other than tab, line feed and carriage return. By then the row is consumed and `count` incremented (generate.py:33, 36), and the exception ends the whole run. The model writes any string and has no such failure path.
- generate.py has no categorical-value or required-field adapter, so none is modelled.
