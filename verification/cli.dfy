/** The `--sources` selection of the `build-index` command
    (src/main.rs:75-83): a `*` anywhere selects every source set, otherwise
    the comma-separated keywords are parsed one by one and all must parse. */
module Cli {
  import opened Common
  import opened Indexing

  /** Every token is a source-set keyword. */
  predicate AllKeywords(tokens: seq<string>) {
    forall i :: 0 <= i < |tokens| ==> ParseSourceSet(tokens[i]).Ok?
  }

  /** The source sets named by `tokens`, or `None` as soon as one token is
      not a keyword (collecting `Result`s into an `EnumSet`). */
  function ParseAll(tokens: seq<string>): (r: Option<set<SourceSet>>)
    ensures r.Some? <==> AllKeywords(tokens)
    ensures r.Some? ==> forall x :: x in r.value <==> Name(x) in tokens
    decreases |tokens|
  {
    if |tokens| == 0 then Some({})
    else
      var rest := ParseAll(tokens[1..]);
      ParseAllStep(tokens, rest);
      match ParseSourceSet(tokens[0])
      case Err(_) => None
      case Ok(x) => if rest.None? then None else Some({x} + rest.value)
  }

  /** What the first token adds to the tokens after it. */
  lemma ParseAllStep(tokens: seq<string>, rest: Option<set<SourceSet>>)
    requires |tokens| > 0
    requires rest.Some? <==> AllKeywords(tokens[1..])
    requires rest.Some? ==> forall x :: x in rest.value <==> Name(x) in tokens[1..]
    ensures AllKeywords(tokens) <==> ParseSourceSet(tokens[0]).Ok? && rest.Some?
    ensures forall x :: Name(x) in tokens <==> Name(x) == tokens[0] || Name(x) in tokens[1..]
  {
    assert tokens == [tokens[0]] + tokens[1..];
    if ParseSourceSet(tokens[0]).Ok? && rest.Some? {
      forall i | 0 <= i < |tokens| ensures ParseSourceSet(tokens[i]).Ok? {
        if i > 0 {
          assert tokens[i] == tokens[1..][i - 1];
        }
      }
    }
    if AllKeywords(tokens) {
      forall i | 0 <= i < |tokens[1..]| ensures ParseSourceSet(tokens[1..][i]).Ok? {
        assert tokens[1..][i] == tokens[i + 1];
      }
    }
  }

  const Comma: char := ','

  /** The error for an unparsable list, quoting the whole argument. */
  function InvalidSources(sources: string): string {
    "Invalid source set '" + sources + "'"
  }

  /** The source sets selected by a `--sources` argument. */
  function SelectSources(sources: string): (r: Result<set<SourceSet>, string>)
    ensures '*' in sources ==> r == Ok(AllSources)
    ensures '*' !in sources ==>
      (r.Ok? <==> AllKeywords(Split(sources, Comma)))
    ensures '*' !in sources && r.Ok? ==>
      forall x :: x in r.value <==> Name(x) in Split(sources, Comma)
    ensures r.Err? ==> r.error == InvalidSources(sources)
  {
    if '*' in sources then Ok(AllSources)
    else
      var tokens := Split(sources, Comma);
      match ParseAll(tokens)
      case None => Err(InvalidSources(sources))
      case Some(selected) => Ok(selected)
  }

  /** The keywords of `xs`, in order. */
  function Names(xs: seq<SourceSet>): (names: seq<string>)
    ensures |names| == |xs|
    ensures forall i :: 0 <= i < |xs| ==> names[i] == Name(xs[i])
  {
    seq(|xs|, i requires 0 <= i < |xs| => Name(xs[i]))
  }

  /** Listing source sets by keyword selects exactly the listed sets, in any
      order and with repetitions. */
  lemma SelectListed(xs: seq<SourceSet>)
    requires |xs| > 0
    ensures SelectSources(Join(Names(xs), Comma)) == Ok(set i | 0 <= i < |xs| :: xs[i])
  {
    var names := Names(xs);
    KeywordsAreClean(xs);
    SplitJoin(names, Comma);
    JoinNoStar(names);
    var r := SelectSources(Join(names, Comma));
    assert r.Ok?;
    SelectedAreListed(xs, r.value);
  }

  lemma KeywordsAreClean(xs: seq<SourceSet>)
    ensures forall i, j :: 0 <= i < |Names(xs)| && 0 <= j < |Names(xs)[i]| ==> Names(xs)[i][j] != Comma
    ensures forall i :: 0 <= i < |Names(xs)| ==> '*' !in Names(xs)[i]
    ensures AllKeywords(Names(xs))
  {
  }

  lemma SelectedAreListed(xs: seq<SourceSet>, selected: set<SourceSet>)
    requires forall x :: x in selected <==> Name(x) in Names(xs)
    ensures selected == set i | 0 <= i < |xs| :: xs[i]
  {
    forall x ensures x in selected <==> x in (set i | 0 <= i < |xs| :: xs[i]) {
      if x in selected {
        var k :| 0 <= k < |xs| && Names(xs)[k] == Name(x);
        assert xs[k] == x;
      }
      if x in (set i | 0 <= i < |xs| :: xs[i]) {
        var k :| 0 <= k < |xs| && xs[k] == x;
        assert Names(xs)[k] == Name(x);
      }
    }
  }

  /** Keywords contain no `*`, and neither does a list of them. */
  lemma {:induction false} JoinNoStar(names: seq<string>)
    requires forall i :: 0 <= i < |names| ==> '*' !in names[i]
    ensures '*' !in Join(names, Comma)
    decreases |names|
  {
    if |names| > 1 {
      JoinNoStar(names[1..]);
    }
  }

  /** The empty argument is one empty token, which is not a keyword. */
  lemma EmptyListRejected()
    ensures SelectSources("") == Err(InvalidSources(""))
  {
    assert Split("", Comma) == [""];
    assert ParseSourceSet([""][0]).Err?;
  }

  /** A token without a comma and without a `*`. */
  predicate Plain(t: string) {
    Comma !in t && '*' !in t
  }

  /** A trailing comma leaves an empty last token, which is not a keyword. */
  lemma TrailingCommaRejected(t: string)
    requires Plain(t)
    ensures SelectSources(t + [Comma]) == Err(InvalidSources(t + [Comma]))
  {
    var s := t + [Comma];
    assert s == t + [Comma] + "";
    SplitAtSeparator(t, "", Comma);
    assert Split(s, Comma) == [t, ""];
    assert ParseSourceSet([t, ""][1]).Err?;
  }

  /** A space after a comma stays part of the next token, which then is not
      a keyword. */
  lemma SpacedListRejected(t: string, u: string)
    requires Plain(t) && Plain(u)
    ensures SelectSources(t + [Comma, ' '] + u) == Err(InvalidSources(t + [Comma, ' '] + u))
  {
    var s := t + [Comma, ' '] + u;
    assert s == t + [Comma] + ([' '] + u);
    SplitAtSeparator(t, [' '] + u, Comma);
    SplitNoSeparator([' '] + u, Comma);
    assert Split(s, Comma) == [t, [' '] + u];
    assert ([' '] + u)[0] == ' ';
    assert ParseSourceSet([t, [' '] + u][1]).Err?;
  }

  /** A `*` anywhere selects everything, even next to invalid keywords. */
  lemma StarSelectsAll()
    ensures SelectSources("nope,*") == Ok(AllSources)
  {
    assert "nope,*"[5] == '*';
  }
}
