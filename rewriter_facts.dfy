/**
 * What one rewrite pass promises: the shape of the output, that a second
 * pass changes nothing, and what the `validators` map holds afterwards.
 */
module RewriterFacts {
  import opened Reflector
  import opened Rewriter

  /** The replacement import `validate` does not itself contain `$validate`. */
  lemma ReplacementIsNotSentinel()
    ensures !IsSentinelImport(ImportSpecifier(ValidateName))
  {
  }

  /** `sub` occurs in `s` starting at index `i`. */
  predicate OccursAt(s: string, sub: string, i: int) {
    0 <= i && i + |sub| <= |s| && s[i..i + |sub|] == sub
  }

  /** `node.getText().includes("$validate")`: `Contains` holds exactly when `sub` occurs somewhere in `s`. */
  lemma {:induction false} ContainsIsIncludes(s: string, sub: string)
    ensures Contains(s, sub) <==> exists i :: OccursAt(s, sub, i)
    decreases |s|
  {
    if |sub| <= |s| {
      if s[..|sub|] == sub {
        assert OccursAt(s, sub, 0);
      } else {
        ContainsIsIncludes(s[1..], sub);
        if exists i :: OccursAt(s, sub, i) {
          var i :| OccursAt(s, sub, i);
          assert OccursAt(s[1..], sub, i - 1) by {
            assert s[1..][i - 1..i - 1 + |sub|] == s[i..i + |sub|];
          }
        }
        if Contains(s[1..], sub) {
          var j :| OccursAt(s[1..], sub, j);
          assert OccursAt(s, sub, j + 1) by {
            assert s[j + 1..j + 1 + |sub|] == s[1..][j..j + |sub|];
          }
        }
      }
    } else {
      assert forall i :: !OccursAt(s, sub, i);
    }
  }

  /** A pass over a clean tree does not crash and returns the tree unchanged. */
  lemma {:induction false} CleanIsFixedPoint(n: Node)
    requires Clean(n)
    ensures Ready(n) && Rewrite(n) == n
  {
    if n.Call? || n.Other? {
      forall i | 0 <= i < |n.kids|
        ensures Ready(n.kids[i]) && Rewrite(n.kids[i]) == n.kids[i]
      {
        CleanIsFixedPoint(n.kids[i]);
      }
      assert Rewrite(n).kids == n.kids;
    }
  }

  /** A clean tree leaves `validators` as it found it. */
  lemma {:induction false} CleanRecordsNothing(n: Node, m: map<string, seq<Node>>)
    requires Clean(n)
    ensures Ready(n) && Record(n, m) == m
    decreases n, 1, 0
  {
    CleanIsFixedPoint(n);
    if n.Call? || n.Other? {
      CleanKidsRecordNothing(n, |n.kids|, m);
    }
  }

  lemma {:induction false} CleanKidsRecordNothing(n: Node, k: nat, m: map<string, seq<Node>>)
    requires n.Call? || n.Other?
    requires k <= |n.kids|
    requires forall i :: 0 <= i < |n.kids| ==> Clean(n.kids[i])
    ensures forall i :: 0 <= i < |n.kids| ==> Ready(n.kids[i])
    ensures RecordKids(n, k, m) == m
    decreases n, 0, k
  {
    forall i | 0 <= i < |n.kids|
      ensures Ready(n.kids[i])
    {
      CleanIsFixedPoint(n.kids[i]);
    }
    if k > 0 {
      CleanKidsRecordNothing(n, k - 1, m);
      CleanRecordsNothing(n.kids[k - 1], m);
    }
  }

  /** A second pass over the output of a pass is the identity and writes no `validators` entry. */
  lemma SecondPassIsIdentity(n: Node, m: map<string, seq<Node>>)
    requires Ready(n)
    ensures Ready(Rewrite(n))
    ensures Rewrite(Rewrite(n)) == Rewrite(n)
    ensures Record(Rewrite(n), m) == m
  {
    CleanIsFixedPoint(Rewrite(n));
    CleanRecordsNothing(Rewrite(n), m);
  }

  /** The first type arguments of the marker calls the visitor reaches, in visiting order. */
  function Markers(n: Node): seq<TypeArg>
    requires Ready(n)
    decreases n, 1, 0
  {
    if IsMarker(n) then [n.typeArgs[0]]
    else if IsSentinelImport(n) then []
    else if n.Call? || n.Other? then MarkersOfKids(n, |n.kids|)
    else []
  }

  function MarkersOfKids(n: Node, k: nat): seq<TypeArg>
    requires n.Call? || n.Other?
    requires k <= |n.kids|
    requires forall i :: 0 <= i < |n.kids| ==> Ready(n.kids[i])
    decreases n, 0, k
  {
    if k == 0 then [] else MarkersOfKids(n, k - 1) + Markers(n.kids[k - 1])
  }

  /** `validators.set(text, [literal])` for each marker argument in turn. */
  function Apply(m: map<string, seq<Node>>, args: seq<TypeArg>): map<string, seq<Node>>
  {
    if args == [] then m
    else
      var last := args[|args| - 1];
      Apply(m, args[..|args| - 1])[last.text := [MarkerLiteral(last)]]
  }

  lemma {:induction false} ApplyAppend(m: map<string, seq<Node>>, a: seq<TypeArg>, b: seq<TypeArg>)
    ensures Apply(m, a + b) == Apply(Apply(m, a), b)
  {
    if b == [] {
      assert a + b == a;
    } else {
      assert (a + b)[..|a + b| - 1] == a + b[..|b| - 1];
      ApplyAppend(m, a, b[..|b| - 1]);
    }
  }

  /** What a pass does to `validators` is one write per marker call reached, in visiting order. */
  lemma {:induction false} RecordIsMarkerWrites(n: Node, m: map<string, seq<Node>>)
    requires Ready(n)
    ensures Record(n, m) == Apply(m, Markers(n))
    decreases n, 1, 0
  {
    if IsMarker(n) {
      assert [n.typeArgs[0]][..0] == [];
    } else if IsSentinelImport(n) {
    } else if n.Call? || n.Other? {
      KidsRecordIsMarkerWrites(n, |n.kids|, m);
    }
  }

  lemma {:induction false} KidsRecordIsMarkerWrites(n: Node, k: nat, m: map<string, seq<Node>>)
    requires n.Call? || n.Other?
    requires k <= |n.kids|
    requires forall i :: 0 <= i < |n.kids| ==> Ready(n.kids[i])
    ensures RecordKids(n, k, m) == Apply(m, MarkersOfKids(n, k))
    decreases n, 0, k
  {
    if k > 0 {
      KidsRecordIsMarkerWrites(n, k - 1, m);
      RecordIsMarkerWrites(n.kids[k - 1], RecordKids(n, k - 1, m));
      ApplyAppend(m, MarkersOfKids(n, k - 1), Markers(n.kids[k - 1]));
    }
  }

  /** The keys written are exactly the texts of the marker arguments. */
  lemma {:induction false} ApplyKeys(m: map<string, seq<Node>>, args: seq<TypeArg>)
    ensures Apply(m, args).Keys == m.Keys + set a | a in args :: a.text
  {
    if args != [] {
      var init := args[..|args| - 1];
      ApplyKeys(m, init);
      assert args == init + [args[|args| - 1]];
      assert (set a | a in args :: a.text) == (set a | a in init :: a.text) + {args[|args| - 1].text};
    }
  }

  /** No later argument has the text of argument `j`. */
  predicate IsLastWithText(args: seq<TypeArg>, j: nat)
    requires j < |args|
  {
    forall j' :: j < j' < |args| ==> args[j'].text != args[j].text
  }

  /**
   * Under each text, the map holds the literal built for the last marker
   * argument with that text: the entry is overwritten, never read back stale.
   */
  lemma {:induction false} ApplyLastWriteWins(m: map<string, seq<Node>>, args: seq<TypeArg>, j: nat)
    requires j < |args|
    requires IsLastWithText(args, j)
    ensures args[j].text in Apply(m, args)
    ensures Apply(m, args)[args[j].text] == [Literal(BuildType(args[j].resolved))]
  {
    if j < |args| - 1 {
      ApplyLastWriteWins(m, args[..|args| - 1], j);
    }
  }

  /** A key no marker argument has keeps the value it had before the pass. */
  lemma {:induction false} ApplyUntouched(m: map<string, seq<Node>>, args: seq<TypeArg>, key: string)
    requires key in m
    requires forall a :: a in args ==> a.text != key
    ensures key in Apply(m, args) && Apply(m, args)[key] == m[key]
  {
    if args != [] {
      assert forall a :: a in args[..|args| - 1] ==> a in args;
      ApplyUntouched(m, args[..|args| - 1], key);
    }
  }

  /**
   * After a whole pass from an empty map, `validators` has one key per
   * marker text reached, and under each the literal of the last marker call
   * with that text.
   */
  lemma PassValidators(root: Node)
    requires Ready(root)
    ensures Record(root, map[]).Keys == set a | a in Markers(root) :: a.text
    ensures forall j :: 0 <= j < |Markers(root)| && IsLastWithText(Markers(root), j) ==>
      Record(root, map[])[Markers(root)[j].text] == [Literal(BuildType(Markers(root)[j].resolved))]
  {
    var args := Markers(root);
    RecordIsMarkerWrites(root, map[]);
    ApplyKeys(map[], args);
    forall j | 0 <= j < |args| && IsLastWithText(args, j)
      ensures Apply(map[], args)[args[j].text] == [Literal(BuildType(args[j].resolved))]
    {
      ApplyLastWriteWins(map[], args, j);
    }
  }

  /** Visiting a marker call leaves under its type argument's text exactly the node it returns. */
  lemma MarkerStoredAndReturned(n: Node, m: map<string, seq<Node>>)
    requires Ready(n) && IsMarker(n)
    ensures Record(n, m)[n.typeArgs[0].text] == [Rewrite(n)]
    ensures forall key :: key in m && key != n.typeArgs[0].text ==> Record(n, m)[key] == m[key]
  {
  }
}
