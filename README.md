# Syntax-tree node construction

This project models `create_node` from `sintatico/src/syntatic_tree.c`, the
constructor for the parser's syntax-tree nodes. A node holds:

- a `symbol` reference for a semantic-analysis artifact;
- a terminal flag;
- ten child slots;
- a rule name and a value, both copied from NUL-terminated C strings.

`create_node` allocates one node. It sets `symbol` to null and stores the
terminal flag. It clears the ten child slots with a counted loop, then
`strcpy`s the two argument strings into the node.

The model has two modules:

- `CStrings` (`cstrings.dfy`) gives the meaning of a C string. A `char*`
  argument is a character buffer. What `strcpy` copies out of it is
  `Contents(buf)`: every character before the first NUL. The module proves
  that this copy is complete and stops at the terminator.
- `SyntaticTree` (`syntatic_tree.dfy`) holds the class `Node`. Its
  fields are `symbol: object?`, `isTerminal: bool`, `ruleName: string`,
  `value: string` and `children: array<Node?>` of length `MaxChildren` (10).
  The constructor follows `create_node` step by step and clears the slots
  with the same counted loop. In Dafny a fresh array's elements are
  unknown to the verifier, just like `malloc`ed memory in C. So the loop,
  and its invariant that slots `0..i-1` are null, is what proves that
  every slot ends up empty. `ConstructionExample` is a client that shows
  what a caller can rely on after building a rule node and a token node.

The argument buffers are `array<char>`s. The constructor has no `modifies`
clause, so it can write only to the new node and its fresh slot array. Its
contract also states explicitly that both argument buffers are unchanged.

`create_node` checks neither the length of its string arguments nor the
`malloc` result, and nothing in it ties the terminal flag to the child
slots; the model therefore has no error results and no terminal-node
restriction.

## Model

| member | source | states |
|---|---|---|
| `SyntaticTree.Node.constructor` | sintatico/src/syntatic_tree.c:5-17 | The new node's `symbol` is null and its terminal flag is the argument. Its slot array is freshly allocated and holds exactly 10 slots, all null. Its rule name and value are the C strings held by the two argument buffers. Both buffers are left unchanged, and nothing that existed before is written. |
| `CStrings.Contents` | sintatico/src/syntatic_tree.c:13-14 | What `strcpy` copies from a terminated buffer: a NUL-free prefix of the buffer, followed in the buffer by a NUL. So the copy is the whole string up to its terminator. |
| `CStrings.ContentsIsPrefixBeforeFirstNul` | sintatico/src/syntatic_tree.c:13-14 | If position `k` holds the first NUL of the buffer, the copied string is exactly the buffer's first `k` characters. |
| `CStrings.ContentsIgnoresTail` | sintatico/src/syntatic_tree.c:13-14 | Characters after the terminator are never read: appending anything to a terminated buffer leaves the copied string the same. |
| `CStrings.Terminated` | sintatico/src/syntatic_tree.c:13-14 | A NUL-free string laid out as a C string (its characters, then a NUL) is copied back in full: `Contents` undoes `Terminated`. |
| `CStrings.TerminatedUndoesContents` | sintatico/src/syntatic_tree.c:13-14 | The other direction: laying out what `strcpy` copied gives back the buffer up to and including its first NUL, which is exactly the part of the buffer `strcpy` reads. |
| `CStrings.CopiedNameReadsBack` | sintatico/src/syntatic_tree.c:13-14 | After `strcpy`, the destination holds the copied characters and a NUL, then its old contents. Read back as a C string, it equals the source string. |

Two members have no row because they model nothing in the source:
`SyntaticTree.NewCString` is a caller-side helper that lays a string out as
a C string literal, and `SyntaticTree.ConstructionExample` is a client that
shows what a caller can prove about two freshly built nodes.

## Left out

- `print_syntatic_tree` and `freeTree` (sintatico/src/syntatic_tree.c:19-25) have empty bodies. There is nothing to model, and no rendering or destruction is invented for them.
- The node's declaration lives in `syntatic_tree.h`, which is not part of this model. The field layout is inferred from the field accesses in `create_node`.
- The size of the `rule_name` and `value` buffers is also declared in that header. There is no capacity bound, so an overlong argument that would overflow the node's buffer is not modelled. The names are stored as unbounded strings.
- Allocation failure: the `malloc` result is never checked, so allocation is Dafny's `new`, which cannot fail.
- The C `int` terminal flag is modelled as a `bool`. C treats any nonzero value as true, and the model does not keep the exact integer.
- `symbol`'s type and meaning are unknown from this code. It is an `object?` that construction only ever sets to null.
- Child attachment does not exist in this code, so ownership and acyclicity of the tree are not modelled.
- C `strcpy` copies bytes; the model copies Dafny `char`s. Only the NUL value is treated specially by the copy, so nothing else depends on the character encoding.
