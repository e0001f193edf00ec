/**
 * The `@import` directive parser: after the directive pattern matches, the import list
 * (group 2) is split on runs of commas and whitespace and each token is handed to the
 * code builder, where a `static` token only marks the next import as a static one.
 */
module BuildIn {
  import opened Options
  import opened StringSplit

  const Static := "static"

  /** The outcome of matching the directive pattern against the remaining template text:
   *  group 1 is the whole directive, group 2 its import list. */
  datatype MatchResult = NoMatch | Matched(group1: string, group2: string)

  /** `new Directive("", ctx())`: a directive that emits the given code. */
  datatype Directive = Directive(code: string)

  /** The import list of the class being generated. */
  class CodeBuilder {
    var imports: seq<string>

    constructor ()
      ensures imports == []
    {
      imports := [];
    }

    /** `addImport`: the import is appended. */
    method AddImport(imp: string)
      modifies this
      ensures imports == old(imports) + [imp]
    {
      imports := imports + [imp];
    }
  }

  /** The import for token `i`: prefixed with "static " exactly when the token before it
   *  is `static`. */
  function ImportFor(ts: seq<string>, i: nat): string
    requires i < |ts|
  {
    if i > 0 && ts[i - 1] == Static then "static " + ts[i] else ts[i]
  }

  /** The imports a token list yields, in token order: one per non-`static` token. */
  function Imports(ts: seq<string>): seq<string>
  {
    if ts == [] then []
    else
      var n := |ts| - 1;
      Imports(ts[..n]) + (if ts[n] == Static then [] else [ImportFor(ts, n)])
  }

  /** One more token: nothing for `static`, otherwise its import, prefixed when the token
   *  before it is `static`. */
  lemma ImportsStep(ts: seq<string>, k: nat)
    requires k < |ts|
    ensures Imports(ts[..k + 1]) == Imports(ts[..k]) +
              (if ts[k] == Static then []
               else if k > 0 && ts[k - 1] == Static then ["static " + ts[k]]
               else [ts[k]])
  {
    var done := ts[..k + 1];
    assert done[..k] == ts[..k] && done[k] == ts[k];
    assert k > 0 ==> done[k - 1] == ts[k - 1];
  }

  /** The positions of the tokens that are not `static`, ascending. */
  function NonStaticIndices(ts: seq<string>): (r: seq<nat>)
    ensures forall k :: 0 <= k < |r| ==> r[k] < |ts| && ts[r[k]] != Static
    ensures forall k, l :: 0 <= k < l < |r| ==> r[k] < r[l]
    ensures forall i :: 0 <= i < |ts| && ts[i] != Static ==> i in r
  {
    if ts == [] then []
    else
      var n := |ts| - 1;
      NonStaticIndices(ts[..n]) + (if ts[n] == Static then [] else [n])
  }

  /** One import per non-`static` token, in token order, each prefixed as `ImportFor` says. */
  lemma {:induction false} ImportsInOrder(ts: seq<string>)
    ensures |Imports(ts)| == |NonStaticIndices(ts)|
    ensures forall k :: 0 <= k < |Imports(ts)| ==>
              Imports(ts)[k] == ImportFor(ts, NonStaticIndices(ts)[k])
  {
    if ts != [] {
      var n := |ts| - 1;
      var init := ts[..n];
      ImportsInOrder(init);
      forall k | 0 <= k < |Imports(ts)|
        ensures Imports(ts)[k] == ImportFor(ts, NonStaticIndices(ts)[k])
      {
        if k < |Imports(init)| {
          var i := NonStaticIndices(init)[k];
          assert NonStaticIndices(ts)[k] == i;
          assert Imports(ts)[k] == ImportFor(init, i);
          assert ts[i] == init[i];
          assert i > 0 ==> ts[i - 1] == init[i - 1];
        }
      }
    }
  }

  /** `static` itself is never imported. */
  lemma StaticNeverImported(ts: seq<string>)
    ensures Static !in Imports(ts)
  {
    ImportsInOrder(ts);
    var imps, idx := Imports(ts), NonStaticIndices(ts);
    forall k | 0 <= k < |imps| ensures imps[k] != Static {
      var i := idx[k];
      if i > 0 && ts[i - 1] == Static {
        assert |imps[k]| > |Static|;
      }
    }
  }

  /** A `static` at the end of the list adds nothing. */
  lemma TrailingStaticAddsNothing(ts: seq<string>)
    ensures Imports(ts + [Static]) == Imports(ts)
  {
    assert (ts + [Static])[..|ts|] == ts;
  }

  /** Repeated `static` collapses: `static static x` yields the single import `static x`. */
  lemma RepeatedStatic(x: string)
    requires x != Static
    ensures Imports([Static, Static, x]) == ["static " + x]
  {
    var ts := [Static, Static, x];
    assert ts[..2] == [Static, Static] && ts[..2][..1] == [Static] && [Static][..0] == [];
    assert Imports([Static]) == [];
    assert Imports([Static, Static]) == [];
    assert ImportFor(ts, 2) == "static " + x;
  }

  /** A separator at the head of the import list makes the first import the empty
   *  string; a list of nothing but separators yields no import at all. */
  lemma LeadingSeparatorImportsEmpty(s: string)
    requires s != [] && IsSeparator(s[0])
    ensures IsRun(s) ==> Imports(Split(s)) == []
    ensures !IsRun(s) ==> |Imports(Split(s))| > 0 && Imports(Split(s))[0] == ""
  {
    var ts := Split(s);
    SplitShape(s);
    if ts != [] {
      ImportsInOrder(ts);
      var idx := NonStaticIndices(ts);
      assert ts[0] != Static;
      assert 0 in idx;
      assert idx[0] == 0;
    }
  }

  /** The parser `ImportParser.create` returns, reduced to what `go()` touches: the template
   *  text with a cursor, and the code builder. */
  class ImportParser {
    const template: string
    var cursor: nat
    const builder: CodeBuilder

    constructor (template: string, builder: CodeBuilder)
      ensures this.template == template && this.builder == builder && cursor == 0
    {
      this.template := template;
      this.builder := builder;
      cursor := 0;
    }

    predicate Valid()
      reads this
    {
      cursor <= |template|
    }

    /** `remain()`: the text not consumed yet. */
    function Remain(): string
      requires Valid()
      reads this
    {
      template[cursor..]
    }

    /** `step(n)`: consume `n` more characters. */
    method Step(n: nat)
      requires Valid() && cursor + n <= |template|
      modifies this`cursor
      ensures Valid() && cursor == old(cursor) + n
    {
      cursor := cursor + n;
    }

    /**
     * `go()`, given the match of the directive pattern against `Remain()`: no match
     * consumes nothing and yields no directive; a match consumes group 1 and adds the
     * imports of group 2's tokens, then yields an empty directive.
     */
    method Go(m: MatchResult) returns (d: Option<Directive>)
      requires Valid()
      requires m.Matched? ==> m.group1 <= Remain()
      modifies this`cursor, builder
      ensures Valid()
      ensures m.NoMatch? ==>
                d == None && cursor == old(cursor) && builder.imports == old(builder.imports)
      ensures m.Matched? ==>
                && d == Some(Directive(""))
                && cursor == old(cursor) + |m.group1|
                && builder.imports == old(builder.imports) + Imports(Split(m.group2))
    {
      if m.NoMatch? {
        return None;
      }
      var s := m.group1;
      Step(|s|);
      s := m.group2;
      var sa := Split(s);
      var cb := builder;
      var statik := false;
      for k := 0 to |sa|
        invariant cb.imports == old(cb.imports) + Imports(sa[..k])
        invariant statik == (k > 0 && sa[k - 1] == Static)
        modifies cb
      {
        var imp := sa[k];
        ImportsStep(sa, k);
        if imp == Static {
          statik := true;
        } else {
          cb.AddImport(if statik then "static " + imp else imp);
          statik := false;
        }
      }
      assert sa[..|sa|] == sa;
      return Some(Directive(""));
    }
  }
}
