# Block triangularization of an incidence matrix

This project models `block_triangularize` from Pyomo's incidence analysis
(`parker_cce2022/parker_cce2022/common/incidence_analysis/triangularize.py`) in Dafny and proves it correct.

The function takes two arguments:
- a square sparse matrix, whose rows are equations and whose columns are
  variables; only its sparsity pattern matters, and the call reads it through a
  bipartite graph;
- a perfect matching, given as a dictionary from rows to columns.

"Perfect" here means what the call checks: one entry per row, every column
below M, and no column used twice. Neither the call nor the model asks a
matched pair to be a nonzero of the matrix, so any bijection of rows onto
columns is accepted (`Triangularize.IsPerfectMatching`).

It returns three values:
- the block of every row;
- the block of every column;
- for every block, the list of later blocks that depend on it.

Permuting rows and columns by these block numbers puts the matrix in
block-lower-triangular form. The docstring speaks of two dictionaries. The code
returns three values, and the model follows the code.

The computation goes through five steps:

1. **Row digraph.** There is an edge u -> v when row u is nonzero in the
   column matched to row v, and u is not v. `Triangularize.BuildRowGraph` is
   the loop of the source. `Triangularize.RowDigraph` is its reference
   definition.
2. **Strongly connected components.** The closure is computed by Warshall's
   algorithm (`Digraph.Closure`), which is proved equal to reachability along
   walks. Each row is labelled by the smallest row of its component
   (`Components.ComponentLabels`).
3. **Condensation.** This is the condensation with every edge reversed
   (`Condensation.CondensedEdge`).
4. **Topological order.** Kahn's algorithm computes the order
   (`Condensation.TopologicalOrder`). The number of rows a component reaches
   strictly grows along every condensed edge, so every remaining set of
   components holds one with no incoming condensed edge from the set
   (`Condensation.SourceExists`). The algorithm therefore never gets stuck
   and emits every component.
5. **Renumbering.** Rows, columns and condensed edges are renumbered by their
   position in that order (`Triangularize.Assemble`). This step is proved
   correct for every component labelling and every topological order.

`Triangularize.IsBlockTriangularization` gathers what a successful call
promises:
- two rows share a block exactly when they are mutually reachable;
- every block number below the block count is used;
- every column sits in the block of its matched row;
- every nonzero lies on or below the block diagonal, and strictly below it
  when the row and the matched row lie in different components;
- `dag[k]` lists, without repetition and all greater than k, exactly the
  blocks that use a column matched in block k.

The error paths follow the order of the source:
- a non-square shape (`ValueError`);
- a matching whose size differs from the number of rows (`ValueError`);
- the first row whose dictionary lookups fail (`KeyError`);
- a matching that sends two rows to one column (`AssertionError`).

`Properties` derives the following from the contract:
- the block DAG is acyclic;
- the exact result for a diagonal matrix, a dense matrix and a 4-by-4 matrix
  with two blocks;
- renaming rows and columns of the input keeps which rows share a block,
  which columns share a block, the number of blocks and which block depends
  on which; the block numbers themselves may differ.

Files:
- `wrappers.dfy`: `Option`, `Result`.
- `sequences.dfy`: injectivity, images, counting.
- `digraph.dfy`: walks, reachability, Warshall's closure.
- `components.dfy`: component labelling.
- `condensation.dfy`: condensed edges, Kahn's algorithm.
- `triangularize.dfy`: the function itself and its contract.
- `properties.dfy`: consequences and examples.

## Model

| member | source | states |
|---|---|---|
| Triangularize.BlockTriangularize | parker_cce2022/parker_cce2022/common/incidence_analysis/triangularize.py:15-109 | A non-square matrix raises the shape error. A matching of the wrong size raises the size error. A `KeyError` is raised exactly when some row lacks a column below M. When every row has a column below M but two rows share one, the assertion fails. Every failure is the one the input checks report, key included. The call succeeds exactly when the matrix is square and the matching is perfect, and then the result is a block triangularization: blocks are the strongly connected components, columns follow their matched rows, no nonzero lies above the block diagonal, and the DAG lists exactly the dependencies between blocks |
| Triangularize.CheckInputs | parker_cce2022/parker_cce2022/common/incidence_analysis/triangularize.py:39-105 | The checks fire in source order. A `KeyError` names the first failing row: the row itself when it is missing from the dictionary, or its column plus M when that column does not exist. A matching that passes the lookups but sends two rows to one column fails the assertion. The inputs are accepted exactly when the matching is perfect, and then its keys are exactly the rows |
| Triangularize.FirstLookupFailure | parker_cce2022/parker_cce2022/common/incidence_analysis/triangularize.py:60-64 | There is no failure exactly when every row has a column below M. Otherwise the result is a failing row and every earlier row succeeds, so it is the row at which the loop raises |
| Triangularize.AcceptedMatching | parker_cce2022/parker_cce2022/common/incidence_analysis/triangularize.py:104-105 | Once every row has a column below M, the inverted matching has at most M entries, and it has exactly M exactly when the matching is perfect |
| Triangularize.KeysOfPerfectMatching | parker_cce2022/parker_cce2022/common/incidence_analysis/triangularize.py:50-51 | A dictionary of size M that holds every row below M holds no other key |
| Triangularize.InvertMatching | parker_cce2022/parker_cce2022/common/incidence_analysis/triangularize.py:103-104 | `col_row_map` is the two-sided inverse of the matching: the owner of a row's column is that row, and the column of a column's owner is that column |
| Triangularize.BuildRowGraph | parker_cce2022/parker_cce2022/common/incidence_analysis/triangularize.py:57-67 | The loop produces an edge u -> v exactly when u is not v and row u uses the column matched to v. It adds no self-loops and equals the reference row digraph |
| Digraph.Closure | parker_cce2022/parker_cce2022/common/incidence_analysis/triangularize.py:69-70 | The closure holds at (u, v) exactly when some walk of the row digraph leads from u to v |
| Digraph.WarshallSound | parker_cce2022/parker_cce2022/common/incidence_analysis/triangularize.py:69-70 | Every pair the closure sets after k rounds is joined by a walk |
| Digraph.WarshallComplete | parker_cce2022/parker_cce2022/common/incidence_analysis/triangularize.py:69-70 | After k rounds, every pair joined by a walk whose interior rows are all below k is set |
| Components.ComponentLabels | parker_cce2022/parker_cce2022/common/incidence_analysis/triangularize.py:70-71 | Two rows get the same component exactly when each reaches the other. The name is a member of the component, and no smaller row belongs to it |
| Components.LeastMutualIsLabelling | parker_cce2022/parker_cce2022/common/incidence_analysis/triangularize.py:70-71 | Naming each row by the least row it is mutually reachable with, read off the closure, is a component labelling: equal names exactly for mutually reachable rows, every name below or equal to its row, and no smaller row in the component |
| Condensation.Roots | parker_cce2022/parker_cce2022/common/incidence_analysis/triangularize.py:75-77 | The DAG gets one node per component, listed in increasing order |
| Condensation.ReachGrowsAlongEdges | parker_cce2022/parker_cce2022/common/incidence_analysis/triangularize.py:78-86 | Along every reversed condensed edge, the target reaches strictly more rows than the source, so the condensation has no cycle |
| Condensation.SourceExists | parker_cce2022/parker_cce2022/common/incidence_analysis/triangularize.py:88-89 | Every non-empty collection of components contains one that no other member has an edge into |
| Condensation.Kahn | parker_cce2022/parker_cce2022/common/incidence_analysis/triangularize.py:88-89 | The output lists every given component once and nothing else, and every condensed edge points forward in the list |
| Condensation.TopologicalOrder | parker_cce2022/parker_cce2022/common/incidence_analysis/triangularize.py:88-89 | `scc_order` is a topological order of the reversed condensation that lists every component exactly once |
| Triangularize.Successors | parker_cce2022/parker_cce2022/common/incidence_analysis/triangularize.py:98-100 | One list of `dag_ll` holds exactly the block positions whose component receives a condensed edge from block k, in increasing order, so without repetition |
| Triangularize.Assemble | parker_cce2022/parker_cce2022/common/incidence_analysis/triangularize.py:91-107 | For every component labelling and every topological order, renumbering by position gives a block triangularization with one block per component |
| Triangularize.RowBlocks | parker_cce2022/parker_cce2022/common/incidence_analysis/triangularize.py:93-94 | `row_block_map` gives every row a block below the number of components, and the component at that position of the order is the row's own |
| Triangularize.ColumnBlocks | parker_cce2022/parker_cce2022/common/incidence_analysis/triangularize.py:104-107 | `col_block_map` puts the column matched to each row in that row's block; since the matching is a bijection this fixes every column |
| Triangularize.BlockDag | parker_cce2022/parker_cce2022/common/incidence_analysis/triangularize.py:97-101 | `dag_ll` has one list per block; each list is increasing, so free of repetition, holds only blocks, and holds block j exactly when a condensed edge leads from block k's component to block j's |
| Triangularize.RowBlocksCorrect | parker_cce2022/parker_cce2022/common/incidence_analysis/triangularize.py:93-94 | `row_block_map` assigns every row a block below B, uses every block below B, and puts two rows in one block exactly when they are mutually reachable |
| Triangularize.LowerTriangularCorrect | parker_cce2022/parker_cce2022/common/incidence_analysis/triangularize.py:16-19 | Every nonzero (r, c) has the column's block no later than the row's block. A nonzero in the column matched to a row of another component lies strictly below the diagonal |
| Triangularize.BlockDagCorrect | parker_cce2022/parker_cce2022/common/incidence_analysis/triangularize.py:97-101 | Each `dag_ll[k]` is repetition-free and lists only later blocks. Block j is in `dag_ll[k]` exactly when j is not k and a row of block j uses the column matched to a row of block k |
| Triangularize.DagMembership | parker_cce2022/parker_cce2022/common/incidence_analysis/triangularize.py:78-84 | A condensed edge from the component of block k to that of block j exists exactly when j is not k and some row of block j uses a column matched in block k |
| Properties.BlockDagIsAcyclic | parker_cce2022/parker_cce2022/common/incidence_analysis/triangularize.py:97-101 | Every walk of one or more steps through `dag_ll` ends in a strictly later block than it starts, so the block DAG has no cycle |
| Properties.DiagonalIsAllSingletons | parker_cce2022/parker_cce2022/common/incidence_analysis/triangularize.py:15-109 | For the n-by-n diagonal matrix there are n blocks with one row each. Every column is in its row's block, and no block depends on another |
| Properties.SharedColumnFailsAssertion | parker_cce2022/parker_cce2022/common/incidence_analysis/triangularize.py:50-105 | A 2-by-2 matrix whose matching sends both rows to column 0 passes the size check and both lookups, and then fails the assertion on the inverted matching, which has one entry |
| Properties.DenseIsOneBlock | parker_cce2022/parker_cce2022/common/incidence_analysis/triangularize.py:15-109 | For a dense matrix with any perfect matching there is a single block holding every row and every column, with no dependencies |
| Properties.ChainHasTwoOrderedBlocks | parker_cce2022/parker_cce2022/common/incidence_analysis/triangularize.py:15-109 | For a 4-by-4 matrix with the identity matching, whose row 2 uses column 1, matched to row 1, while rows 0 and 1 use no column of rows 2 and 3, rows and columns split as [0, 0, 1, 1] and the DAG is [[1], []] |
| Properties.RelabellingKeepsBlocks | parker_cce2022/parker_cce2022/common/incidence_analysis/triangularize.py:15-109 | Permuting rows and columns of the matrix, with the matching carried along, keeps which rows share a block, which columns share a block, the number of blocks, and which block depends on which; the block numbers themselves may differ |

## Left out

- The default matching (lines 47-48) calls `maximum_matching`, which is not part of this model. The matching is always an input.
- networkx and SciPy are not modelled. The bipartite graph, `strongly_connected_components` and `topological_sort` are replaced by a dense boolean matrix, Warshall's closure and Kahn's algorithm.
- Components are named by their smallest row, not by networkx's enumeration index. These names never reach the output.
- The topological order differs: networkx's `topological_sort` has its own tie-break, while the model picks the smallest available component. `Triangularize.Assemble` is proved for every topological order, so the contract holds whichever order networkx returns. The exact block numbering of a networkx run is not reproduced.
- `Triangularize.Successors` lists a block's successors in increasing order. The source lists them in networkx's edge insertion order, and the contract states the set, not the order.
- Row and column indices are natural numbers. With a negative column index the source's `col_idx + M` can name a row node of the bipartite graph; that behaviour is not modelled.
- Nonzeros are the structural pattern. An explicitly stored zero, which the bipartite graph would turn into an edge, is not distinguished from a nonzero.
- The source's inner loop visits only the rows stored in a column; the model scans all rows and adds the same edges.
- The assertion at line 105 is evaluated after the graph steps, which cannot raise for a non-injective matching; the model checks it with the other inputs and raises the same error.
- Properties.RelabellingKeepsBlocks: does not promise that the output block numbers are the renamed ones. Blocks that do not depend on each other may be ordered either way, so a renamed input can validly get a different numbering; the lemma states what every valid result shares.
- The assertion at line 105 disappears under `python -O`, which would turn that error into a `KeyError` at line 107; that mode is not modelled.
- `eslick_et_al_applied_energy_2022/model/unit_models/steamheater.py` and `test_CLC_solid_prop.py` are unrelated models elsewhere in the repository and are not part of this model.
