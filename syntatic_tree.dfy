/** Nodes of the parser's syntax tree and their construction
    (`create_node` in sintatico/src/syntatic_tree.c). */
module SyntaticTree {
  import opened CStrings

  /** Number of child slots every node carries. */
  const MaxChildren: nat := 10

  class Node {
    /** Semantic-analysis artifact attached to the node; opaque here and
        only ever set to null by construction. */
    var symbol: object?
    var isTerminal: bool
    var ruleName: string
    var value: string
    /** The fixed child slots. They are stored inside the node, so the
        array itself is never replaced; only its slots change. */
    const children: array<Node?>

    /** Every child slot is empty. */
    ghost predicate Childless()
      reads this, children
    {
      forall i :: 0 <= i < children.Length ==> children[i] == null
    }

    /** Builds a node from the rule-name and value buffers and the terminal
        flag. The buffers must be NUL-terminated, as `strcpy` requires, and
        are only read. */
    constructor (ruleNameBuf: array<char>, valueBuf: array<char>, terminal: bool)
      requires Nul in ruleNameBuf[..] && Nul in valueBuf[..]
      ensures this.symbol == null
      ensures this.isTerminal == terminal
      ensures fresh(this.children) && this.children.Length == MaxChildren
      ensures Childless()
      ensures this.ruleName == Contents(ruleNameBuf[..])
      ensures this.value == Contents(valueBuf[..])
      ensures ruleNameBuf[..] == old(ruleNameBuf[..]) && valueBuf[..] == old(valueBuf[..])
    {
      symbol := null;
      isTerminal := terminal;
      // freshly allocated slots hold unknown references until the loop clears them
      var slots := new Node?[MaxChildren];
      for i := 0 to MaxChildren
        invariant forall k :: 0 <= k < i ==> slots[k] == null
      {
        slots[i] := null;
      }
      children := slots;
      ruleName := Contents(ruleNameBuf[..]);
      value := Contents(valueBuf[..]);
    }
  }

  /** Lays a string out as a C string literal: its characters and a NUL. */
  method NewCString(s: string) returns (a: array<char>)
    requires Nul !in s
    ensures fresh(a) && a[..] == Terminated(s)
  {
    var buf := Terminated(s);
    a := new char[|buf|](i requires 0 <= i < |buf| => buf[i]);
  }

  /** What a caller (the parser) can rely on after building a rule node
      and a token node. */
  method ConstructionExample()
  {
    var program := NewCString("Program");
    var empty := NewCString("");
    var root := new Node(program, empty, false);
    assert root.ruleName == "Program" && root.value == "";
    assert !root.isTerminal && root.symbol == null;
    assert root.children[MaxChildren - 1] == null;

    var identifier := NewCString("Identifier");
    var main := NewCString("main");
    var leaf := new Node(identifier, main, true);
    assert leaf.ruleName == "Identifier" && leaf.value == "main";
    assert leaf != root && leaf.children != root.children;
    assert root.ruleName == "Program" && root.Childless();
  }
}
