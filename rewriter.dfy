/**
 * The marker rewriter: the `transformer` visitor of src/index.ts:145-173 and
 * the `validators` map it fills during one pass.
 *
 * A syntax node is modelled by what the visitor looks at: a call expression
 * by its callee text, its type arguments and its children; an import
 * specifier by its text; a string literal produced by the pass by the
 * description it encodes (the `JSON.stringify` text is not modelled); every
 * other node by its children.
 */
module Rewriter {
  import opened Checker
  import opened Reflector

  /** A type argument node: `getText()` and the checker's `getTypeAtLocation`. */
  datatype TypeArg = TypeArg(text: string, resolved: TsType)

  datatype Node =
    | Call(callee: string, typeArgs: seq<TypeArg>, kids: seq<Node>)
    | ImportSpecifier(text: string)
    | Literal(json: Description)
    | Other(kids: seq<Node>)

  const Marker: string := "$schema"
  const ValidateSentinel: string := "$validate"
  const ValidateName: string := "validate"

  /** `s.includes(sub)` */
  predicate Contains(s: string, sub: string)
    decreases |s|
  {
    |sub| <= |s| && (s[..|sub|] == sub || Contains(s[1..], sub))
  }

  predicate IsMarker(n: Node) {
    n.Call? && n.callee == Marker
  }

  predicate IsSentinelImport(n: Node) {
    n.ImportSpecifier? && Contains(n.text, ValidateSentinel)
  }

  /**
   * The visitor does not crash on `n`: every marker call it reaches has a
   * type argument (`node.typeArguments![0]`). The children of a marker call
   * are never reached.
   */
  predicate Ready(n: Node) {
    if IsMarker(n) then |n.typeArgs| > 0
    else if n.Call? || n.Other? then forall i :: 0 <= i < |n.kids| ==> Ready(n.kids[i])
    else true
  }

  /** No node the visitor reaches is a marker call or a sentinel import. */
  predicate Clean(n: Node) {
    && !IsMarker(n)
    && !IsSentinelImport(n)
    && (n.Call? || n.Other? ==> forall i :: 0 <= i < |n.kids| ==> Clean(n.kids[i]))
  }

  /** The string literal that replaces a marker call. */
  function MarkerLiteral(arg: TypeArg): Node {
    Literal(BuildType(arg.resolved))
  }

  /** The tree `ts.visitNode(sourceFile, visitor)` returns: no marker call or sentinel import is left in it. */
  function Rewrite(n: Node): (r: Node)
    requires Ready(n)
    ensures Clean(r)
  {
    if IsMarker(n) then MarkerLiteral(n.typeArgs[0])
    else if IsSentinelImport(n) then ImportSpecifier(ValidateName)
    else match n
      case Call(callee, typeArgs, kids) =>
        Call(callee, typeArgs, seq(|kids|, i requires 0 <= i < |kids| => Rewrite(kids[i])))
      case Other(kids) =>
        Other(seq(|kids|, i requires 0 <= i < |kids| => Rewrite(kids[i])))
      case _ => n
  }

  /** `validators` after visiting `n`, starting from `m`: the visitor only sets entries, it never deletes one. */
  function Record(n: Node, m: map<string, seq<Node>>): (r: map<string, seq<Node>>)
    requires Ready(n)
    ensures m.Keys <= r.Keys
    decreases n, 1, 0
  {
    if IsMarker(n) then m[n.typeArgs[0].text := [MarkerLiteral(n.typeArgs[0])]]
    else if IsSentinelImport(n) then m
    else if n.Call? || n.Other? then RecordKids(n, |n.kids|, m)
    else m
  }

  /** `validators` after visiting the first `k` children of `n`, in order. */
  function RecordKids(n: Node, k: nat, m: map<string, seq<Node>>): (r: map<string, seq<Node>>)
    requires n.Call? || n.Other?
    requires k <= |n.kids|
    requires forall i :: 0 <= i < |n.kids| ==> Ready(n.kids[i])
    ensures m.Keys <= r.Keys
    decreases n, 0, k
  {
    if k == 0 then m else Record(n.kids[k - 1], RecordKids(n, k - 1, m))
  }

  /** One rewrite pass: the closure returned by `transformer(program)(context)`. */
  class Transformer {
    /** `const validators = new Map<string, ts.Node[]>()` */
    var validators: map<string, seq<Node>>

    constructor ()
      ensures validators == map[]
    {
      validators := map[];
    }

    /** `visitor(node)` */
    method Visit(n: Node) returns (r: Node)
      requires Ready(n)
      modifies this
      ensures r == Rewrite(n)
      ensures validators == Record(n, old(validators))
      decreases n
    {
      if n.Call? && n.callee == Marker {
        var typeArg := n.typeArgs[0];
        var json := BuildType(typeArg.resolved);
        validators := validators[n.typeArgs[0].text := [Literal(json)]];
        // `validators.get(...)` finds the entry just written: the array is returned
        var validator := validators[typeArg.text];
        return validator[0];
      }
      if n.ImportSpecifier? && Contains(n.text, ValidateSentinel) {
        return ImportSpecifier(ValidateName);
      }
      // `ts.visitEachChild(node, visitor, context)`
      if n.Call? || n.Other? {
        var kids := n.kids;
        var visited: seq<Node> := [];
        for i := 0 to |kids|
          invariant |visited| == i
          invariant forall j :: 0 <= j < i ==> visited[j] == Rewrite(kids[j])
          invariant validators == RecordKids(n, i, old(validators))
        {
          var kid := Visit(kids[i]);
          visited := visited + [kid];
        }
        if n.Call? {
          r := Call(n.callee, n.typeArgs, visited);
        } else {
          r := Other(visited);
        }
      } else {
        r := n;
      }
    }
  }

  /**
   * `(sourceFile) => ts.visitNode(sourceFile, visitor)` on a new transformation
   * context. The source makes one `validators` map per context, and the closure
   * may then serve several files; since every marker call writes its entry
   * before reading it, the tree returned does not depend on the map's earlier
   * contents.
   */
  method TransformSourceFile(root: Node) returns (out: Node)
    requires Ready(root)
    ensures out == Rewrite(root)
  {
    var pass := new Transformer();
    out := pass.Visit(root);
  }
}
