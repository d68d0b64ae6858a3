/** The policy compiler, policy-compiler/policy_compiler.py. A policy is a
    conjunction of disjunctions of predicates such as `fwVersionIs(3)`. The
    compiler flattens it to a dictionary from predicate names to arguments, to be
    read as a conjunction over the names of disjunctions over the arguments. */
module PolicyCompiler {
  import opened Types

  // -------------------------------------------------------- Python strings

  predicate IsSpace(c: char) {
    var n := c as int;
    || 0x09 <= n <= 0x0d || 0x1c <= n <= 0x20 || n == 0x85 || n == 0xa0 || n == 0x1680
    || 0x2000 <= n <= 0x200a || n == 0x2028 || n == 0x2029 || n == 0x202f || n == 0x205f || n == 0x3000
  }

  /** s.rstrip() */
  function RStrip(s: string): string {
    if s != [] && IsSpace(s[|s| - 1]) then RStrip(s[..|s| - 1]) else s
  }

  /** The characters that Python counts as white space. */
  lemma Spaces(c: char)
    ensures IsSpace(c) <==> c in "\t\n\U{0B}\U{0C}\r\U{1C}\U{1D}\U{1E}\U{1F} \U{85}\U{A0}\U{1680}\U{2000}\U{2001}\U{2002}\U{2003}\U{2004}\U{2005}\U{2006}\U{2007}\U{2008}\U{2009}\U{200A}\U{2028}\U{2029}\U{202F}\U{205F}\U{3000}"
  {
  }

  /** All white space at the end is dropped, and nothing else. */
  lemma {:induction false} RStripExact(s: string)
    ensures RStrip(s) <= s
    ensures forall i :: |RStrip(s)| <= i < |s| ==> IsSpace(s[i])
    ensures RStrip(s) != [] ==> !IsSpace(RStrip(s)[|RStrip(s)| - 1])
    decreases |s|
  {
    hide IsSpace;
    if s != [] && IsSpace(s[|s| - 1]) { RStripExact(s[..|s| - 1]); }
  }

  /** s.replace(a, b) */
  function Replace(s: string, a: char, b: char): (r: string)
    ensures |r| == |s|
    ensures forall i :: 0 <= i < |s| ==> r[i] == if s[i] == a then b else s[i]
  {
    seq(|s|, i requires 0 <= i < |s| => if s[i] == a then b else s[i])
  }

  /** s.split(sep) */
  function Split(s: string, sep: char): (r: seq<string>)
    ensures |r| > 0
  {
    if s == [] then [[]]
    else
      var rest := Split(s[1..], sep);
      if s[0] == sep then [[]] + rest else [[s[0]] + rest[0]] + rest[1..]
  }

  /** s.find(c) */
  function Find(s: string, c: char): (r: int)
    ensures -1 <= r < |s|
    ensures r == -1 ==> c !in s
    ensures r >= 0 ==> s[r] == c && c !in s[..r]
  {
    if s == [] then -1
    else if s[0] == c then 0
    else
      var r := Find(s[1..], c);
      assert s == [s[0]] + s[1..];
      if r < 0 then -1 else
        assert s[..r + 1] == [s[0]] + s[1..][..r];
        r + 1
  }

  // ------------------------------------------------------------- compiler

  datatype Pred = Pred(key: string, val: string)

  /** An entry of the dictionary: a list, or the string that replaces it. */
  datatype Entry = Many(values: seq<string>) | One(value: string)

  /** None, an exception for a missing key, or the dictionary. */
  datatype Compiled = NoPolicy | MissingKey(key: string) | Policy(dict: map<string, Entry>)

  const SESSION_KEY := "sessionKeyIs"
  const QUERY := "query"

  /** obtain_key_val */
  function ObtainKeyVal(pred: string): Option<Pred> {
    var start := Find(pred, '(');
    if start == -1 then None
    else
      var end := Find(pred, ')');
      if end == -1 then None
      else Some(Pred(pred[..start], if end < start + 1 then "" else pred[start + 1..end]))
  }

  /** All pieces parsed, or None if one of them is not a predicate. */
  function ParseAll(pieces: seq<string>): Option<seq<Pred>> {
    if pieces == [] then Some([])
    else
      var n := |pieces| - 1;
      match (ParseAll(pieces[..n]), ObtainKeyVal(pieces[n]))
      case (Some(ps), Some(p)) => Some(ps + [p])
      case _ => None
  }

  /** The arguments given to a predicate name, in order. */
  function ValuesOf(ps: seq<Pred>, key: string): seq<string> {
    if ps == [] then []
    else
      var n := |ps| - 1;
      ValuesOf(ps[..n], key) + if ps[n].key == key then [ps[n].val] else []
  }

  predicate Special(key: string) { key == SESSION_KEY || key == QUERY }

  predicate Uses(ps: seq<Pred>, key: string) { ValuesOf(ps, key) != [] }

  /** The dictionary groups the arguments by name; the two special names keep
      their first argument only. */
  ghost predicate IsDictionary(d: map<string, Entry>, ps: seq<Pred>) {
    && (forall key :: key in d <==> Uses(ps, key))
    && forall key :: key in d ==>
         d[key] == if Special(key) then One(ValuesOf(ps, key)[0]) else Many(ValuesOf(ps, key))
  }

  ghost function Dictionary(ps: seq<Pred>): map<string, Entry> {
    map p | p in ps && Uses(ps, p.key) :: p.key :=
      if Special(p.key) then One(ValuesOf(ps, p.key)[0]) else Many(ValuesOf(ps, p.key))
  }

  lemma {:induction false} UsesMeansPresent(ps: seq<Pred>, key: string)
    ensures Uses(ps, key) <==> exists i :: 0 <= i < |ps| && ps[i].key == key
    decreases |ps|
  {
    if ps != [] {
      var n := |ps| - 1;
      UsesMeansPresent(ps[..n], key);
      assert ps[n].key == key ==> Uses(ps, key);
      assert forall i :: 0 <= i < n ==> ps[..n][i] == ps[i];
    }
  }

  /** There is one such dictionary. */
  lemma {:induction false} OneDictionary(ps: seq<Pred>, d: map<string, Entry>)
    ensures IsDictionary(d, ps) <==> d == Dictionary(ps)
  {
    hide ValuesOf, Uses;
    forall key ensures key in Dictionary(ps) <==> Uses(ps, key) {
      UsesMeansPresent(ps, key);
    }
  }

  /** The pieces of a policy text. */
  function Pieces(policy: string): seq<string> {
    Split(RStrip(Replace(RStrip(policy), '&', '|')), '|')
  }

  /** The dictionary before the last two assignments. */
  ghost predicate Grouped(d: map<string, seq<string>>, ps: seq<Pred>) {
    forall key :: (key in d <==> Uses(ps, key)) && (key in d ==> d[key] == ValuesOf(ps, key))
  }

  lemma {:induction false} GroupOneMore(d: map<string, seq<string>>, ps: seq<Pred>, p: Pred)
    requires Grouped(d, ps)
    ensures Grouped(d[p.key := (if p.key in d then d[p.key] else []) + [p.val]], ps + [p])
  {
    var more := ps + [p];
    assert more[..|ps|] == ps;
    forall key ensures ValuesOf(more, key) == ValuesOf(ps, key) + if p.key == key then [p.val] else [] {
    }
  }

  /** The two special names keep their first argument. */
  function KeepFirst(d: map<string, seq<string>>): map<string, Entry>
    requires SESSION_KEY in d && d[SESSION_KEY] != [] && QUERY in d && d[QUERY] != []
  {
    (map key | key in d :: Many(d[key]))[SESSION_KEY := One(d[SESSION_KEY][0])][QUERY := One(d[QUERY][0])]
  }

  lemma {:induction false} KeepFirstIsDictionary(d: map<string, seq<string>>, ps: seq<Pred>)
    requires Grouped(d, ps) && SESSION_KEY in d && QUERY in d
    ensures d[SESSION_KEY] != [] && d[QUERY] != []
    ensures IsDictionary(KeepFirst(d), ps)
  {
    hide ValuesOf;
  }

  lemma {:induction false} ParseOneMore(pieces: seq<string>, i: nat, ps: seq<Pred>)
    requires i < |pieces| && ParseAll(pieces[..i]) == Some(ps)
    ensures ParseAll(pieces[..i + 1]) == match ObtainKeyVal(pieces[i])
                                         case None => None
                                         case Some(p) => Some(ps + [p])
  {
    assert pieces[..i + 1][..i] == pieces[..i];
  }

  /** What compile_policy returns. */
  ghost function Compile(policy: string): Compiled {
    match ParseAll(Pieces(policy))
    case None => NoPolicy
    case Some(ps) =>
      if !Uses(ps, SESSION_KEY) then MissingKey(SESSION_KEY)
      else if !Uses(ps, QUERY) then MissingKey(QUERY)
      else Policy(Dictionary(ps))
  }

  /** compile_policy */
  method CompilePolicy(policy: string) returns (r: Compiled)
    ensures r == Compile(policy)
  {
    hide Pieces, ObtainKeyVal, ParseAll, Grouped, IsDictionary, KeepFirst, Uses, Dictionary;
    var pieces := Pieces(policy);
    var dict: map<string, seq<string>> := map[];
    ghost var ps: seq<Pred> := [];
    NothingParsed(pieces);
    for i := 0 to |pieces|
      invariant ParseAll(pieces[..i]) == Some(ps) && Grouped(dict, ps)
    {
      ParseOneMore(pieces, i, ps);
      var kv := ObtainKeyVal(pieces[i]);
      if kv == None {
        ParseFails(pieces, i + 1);
        return NoPolicy;
      }
      GroupOneMore(dict, ps, kv.value);
      assert [] + [kv.value.val] == [kv.value.val];
      var key, val := kv.value.key, kv.value.val;
      if key !in dict {
        dict := dict[key := [val]];
      } else {
        dict := dict[key := dict[key] + [val]];
      }
      ps := ps + [kv.value];
    }
    assert pieces[..|pieces|] == pieces;
    GroupedUses(dict, ps, SESSION_KEY);
    GroupedUses(dict, ps, QUERY);
    if SESSION_KEY !in dict {
      return MissingKey(SESSION_KEY);
    }
    if QUERY !in dict {
      return MissingKey(QUERY);
    }
    KeepFirstIsDictionary(dict, ps);
    OneDictionary(ps, KeepFirst(dict));
    return Policy(KeepFirst(dict));
  }

  lemma NothingParsed(pieces: seq<string>)
    ensures ParseAll(pieces[..0]) == Some([]) && Grouped(map[], [])
  {
  }

  lemma GroupedUses(d: map<string, seq<string>>, ps: seq<Pred>, key: string)
    requires Grouped(d, ps)
    ensures key in d <==> Uses(ps, key)
  {
  }

  lemma {:induction false} ParseFails(pieces: seq<string>, n: nat)
    requires n <= |pieces| && ParseAll(pieces[..n]) == None
    ensures ParseAll(pieces) == None
    decreases |pieces| - n
  {
    if n < |pieces| {
      assert pieces[..n + 1][..n] == pieces[..n];
      ParseFails(pieces, n + 1);
    } else {
      assert pieces[..n] == pieces;
    }
  }

  // --------------------------------------------------------------- syntax

  function Text(p: Pred): string { p.key + "(" + p.val + ")" }

  function Join(parts: seq<string>, sep: char): string {
    if parts == [] then ""
    else if |parts| == 1 then parts[0]
    else parts[0] + [sep] + Join(parts[1..], sep)
  }

  function Texts(g: seq<Pred>): (r: seq<string>)
    ensures |r| == |g|
    ensures forall i :: 0 <= i < |g| ==> r[i] == Text(g[i])
  {
    seq(|g|, i requires 0 <= i < |g| => Text(g[i]))
  }

  function GroupTexts(gs: seq<seq<Pred>>): (r: seq<string>)
    ensures |r| == |gs|
    ensures forall i :: 0 <= i < |gs| ==> r[i] == Join(Texts(gs[i]), '|')
  {
    seq(|gs|, i requires 0 <= i < |gs| => Join(Texts(gs[i]), '|'))
  }

  /** Groups of predicates: `|` within a group, `&` between groups. */
  function Render(gs: seq<seq<Pred>>): string { Join(GroupTexts(gs), '&') }

  function Flatten<T>(gs: seq<seq<T>>): seq<T> {
    if gs == [] then [] else gs[0] + Flatten(gs[1..])
  }

  predicate Clean(p: Pred) {
    && '(' !in p.key && ')' !in p.key && '&' !in p.key && '|' !in p.key
    && ')' !in p.val && '&' !in p.val && '|' !in p.val
  }

  predicate IsPolicy(gs: seq<seq<Pred>>) {
    && gs != []
    && forall i :: 0 <= i < |gs| ==> gs[i] != [] && forall j :: 0 <= j < |gs[i]| ==> Clean(gs[i][j])
  }

  lemma {:induction false} FindAt(s: string, c: char, i: nat)
    requires i < |s| && s[i] == c && c !in s[..i]
    ensures Find(s, c) == i
    decreases i
  {
    if i > 0 {
      assert s[..i] == [s[0]] + s[1..][..i - 1];
      FindAt(s[1..], c, i - 1);
    }
  }

  /** The name ends at the first `(` and the argument at the first `)`; what comes
      after that is dropped. */
  lemma {:induction false} ObtainFirst(a: string, b: string, c: string)
    requires '(' !in a && ')' !in a && ')' !in b
    ensures ObtainKeyVal(a + "(" + b + ")" + c) == Some(Pred(a, b))
  {
    hide Find;
    var t, n, m := a + "(" + b + ")" + c, |a|, |a| + 1 + |b|;
    assert t[..n] == a && t[n] == '(';
    FindAt(t, '(', n);
    assert t[..m] == a + "(" + b && t[m] == ')';
    FindAt(t, ')', m);
    assert t[n + 1..m] == b;
  }

  /** A `)` before the first `(` leaves the argument empty. */
  lemma {:induction false} ObtainEmpty(a: string, b: string, c: string)
    requires '(' !in a && ')' !in a && '(' !in b
    ensures ObtainKeyVal(a + ")" + b + "(" + c) == Some(Pred(a + ")" + b, ""))
  {
    hide Find;
    var t, n, m := a + ")" + b + "(" + c, |a|, |a| + 1 + |b|;
    assert t[..n] == a && t[n] == ')';
    FindAt(t, ')', n);
    assert t[..m] == a + ")" + b && t[m] == '(';
    FindAt(t, '(', m);
  }

  /** There is no predicate exactly if one of the two characters is absent. */
  lemma {:induction false} ObtainNone(t: string)
    ensures ObtainKeyVal(t) == None <==> '(' !in t || ')' !in t
  {
    hide Find;
  }

  lemma {:induction false} ObtainText(p: Pred)
    requires Clean(p)
    ensures ObtainKeyVal(Text(p)) == Some(p)
  {
    hide ObtainKeyVal;
    ObtainFirst(p.key, p.val, "");
    assert Text(p) == Text(p) + "";
  }

  lemma {:induction false} SplitAt(a: string, sep: char, rest: string)
    requires sep !in a
    ensures Split(a + [sep] + rest, sep) == [a] + Split(rest, sep)
    decreases |a|
  {
    if a == [] {
      assert a + [sep] + rest == [sep] + rest;
      assert ([sep] + rest)[1..] == rest;
    } else {
      var s := a + [sep] + rest;
      assert s[1..] == a[1..] + [sep] + rest;
      SplitAt(a[1..], sep, rest);
      assert [a[0]] + a[1..] == a;
    }
  }

  lemma {:induction false} SplitWhole(a: string, sep: char)
    requires sep !in a
    ensures Split(a, sep) == [a]
    decreases |a|
  {
    if a != [] {
      SplitWhole(a[1..], sep);
      assert [a[0]] + a[1..] == a;
    }
  }

  lemma {:induction false} SplitJoin(parts: seq<string>, sep: char)
    requires parts != [] && forall i :: 0 <= i < |parts| ==> sep !in parts[i]
    ensures Split(Join(parts, sep), sep) == parts
    decreases |parts|
  {
    if |parts| == 1 {
      SplitWhole(parts[0], sep);
    } else {
      SplitJoin(parts[1..], sep);
      SplitAt(parts[0], sep, Join(parts[1..], sep));
    }
  }

  /** The pieces have no separator, and joined by it they are the text. */
  lemma {:induction false} SplitExact(s: string, sep: char)
    ensures Join(Split(s, sep), sep) == s
    ensures forall i :: 0 <= i < |Split(s, sep)| ==> sep !in Split(s, sep)[i]
    decreases |s|
  {
    if s != [] {
      var rest := Split(s[1..], sep);
      SplitExact(s[1..], sep);
      if s[0] == sep {
        assert ([[]] + rest)[1..] == rest;
      } else {
        assert ([[s[0]] + rest[0]] + rest[1..])[1..] == rest[1..];
      }
    }
  }

  lemma {:induction false} CleanText(p: Pred)
    requires Clean(p)
    ensures '&' !in Text(p) && '|' !in Text(p)
  {
  }

  lemma {:induction false} JoinHasNo(parts: seq<string>, sep: char, c: char)
    requires c != sep && forall i :: 0 <= i < |parts| ==> c !in parts[i]
    ensures c !in Join(parts, sep)
    decreases |parts|
  {
    if |parts| > 1 { JoinHasNo(parts[1..], sep, c); }
  }

  lemma {:induction false} GroupText(g: seq<Pred>)
    requires forall j :: 0 <= j < |g| ==> Clean(g[j])
    ensures '&' !in Join(Texts(g), '|')
    ensures forall i :: 0 <= i < |g| ==> '|' !in Texts(g)[i]
  {
    hide Text, Clean, Join;
    forall i | 0 <= i < |g| ensures '|' !in Texts(g)[i] && '&' !in Texts(g)[i] {
      CleanText(g[i]);
    }
    JoinHasNo(Texts(g), '|', '&');
  }

  lemma {:induction false} JoinEnds(parts: seq<string>, sep: char, c: char)
    requires parts != [] && forall i :: 0 <= i < |parts| ==> parts[i] != [] && parts[i][|parts[i]| - 1] == c
    ensures Join(parts, sep) != [] && Join(parts, sep)[|Join(parts, sep)| - 1] == c
    decreases |parts|
  {
    if |parts| > 1 { JoinEnds(parts[1..], sep, c); }
  }

  lemma {:induction false} RenderEnds(gs: seq<seq<Pred>>)
    requires IsPolicy(gs)
    ensures Render(gs) != [] && Render(gs)[|Render(gs)| - 1] == ')'
  {
    hide Join;
    forall i | 0 <= i < |gs|
      ensures GroupTexts(gs)[i] != [] && GroupTexts(gs)[i][|GroupTexts(gs)[i]| - 1] == ')'
    {
      JoinEnds(Texts(gs[i]), '|', ')');
    }
    JoinEnds(GroupTexts(gs), '&', ')');
  }

  lemma {:induction false} ParseTexts(ps: seq<Pred>)
    requires forall i :: 0 <= i < |ps| ==> Clean(ps[i])
    ensures ParseAll(Texts(ps)) == Some(ps)
    decreases |ps|
  {
    hide Text, Clean, ObtainKeyVal;
    if ps != [] {
      var n := |ps| - 1;
      ParseTexts(ps[..n]);
      assert Texts(ps)[..n] == Texts(ps[..n]);
      ObtainText(ps[n]);
      assert ps == ps[..n] + [ps[n]];
    }
  }

  // ---------------------------------------------------- groups of a text

  /** Each part split at `|`. */
  function SplitEach(parts: seq<string>): (r: seq<seq<string>>)
    ensures |r| == |parts|
    ensures forall i :: 0 <= i < |parts| ==> r[i] == Split(parts[i], '|')
  {
    seq(|parts|, i requires 0 <= i < |parts| => Split(parts[i], '|'))
  }

  function ParseGroups(pieces: seq<seq<string>>): Option<seq<seq<Pred>>> {
    if pieces == [] then Some([])
    else match (ParseAll(pieces[0]), ParseGroups(pieces[1..]))
      case (Some(g), Some(gs)) => Some([g] + gs)
      case _ => None
  }

  /** What a policy text says: groups separated by `&` of predicates separated by
      `|`; None if a piece is not a predicate. */
  function GroupsOf(policy: string): Option<seq<seq<Pred>>> {
    ParseGroups(SplitEach(Split(RStrip(policy), '&')))
  }

  lemma {:induction false} FlattenFirst<T>(g: seq<T>, gs: seq<seq<T>>)
    ensures Flatten([g] + gs) == g + Flatten(gs)
  {
    assert ([g] + gs)[1..] == gs;
  }

  /** Replacing `&` by `|` and splitting at `|` gives the pieces of all groups. */
  lemma {:induction false} SplitReplaced(s: string)
    ensures Split(Replace(s, '&', '|'), '|') == Flatten(SplitEach(Split(s, '&')))
    decreases |s|
  {
    hide Flatten, SplitEach;
    if s == [] {
      NoGroup();
      FlattenFirst<string>([""], []);
    } else {
      SplitReplaced(s[1..]);
      var parts := Split(s[1..], '&');
      assert Replace(s, '&', '|')[1..] == Replace(s[1..], '&', '|');
      PiecesCons(s[0], parts);
    }
  }

  /** One more character at the front of the text. */
  lemma {:induction false} PiecesCons(c: char, parts: seq<string>)
    requires parts != []
    ensures Flatten(SplitEach(parts)) != []
    ensures var r := Flatten(SplitEach(parts));
            && Flatten(SplitEach([""] + parts)) == [""] + r
            && Flatten(SplitEach([[c] + parts[0]] + parts[1..]))
               == if c == '|' then [""] + r else [[c] + r[0]] + r[1..]
  {
    hide Flatten, Split, SplitEach;
    var first, rest := parts[0], parts[1..];
    NoGroup();
    assert parts == [first] + rest;
    EachFirst(first, rest);
    EachFirst("", parts);
    EachFirst([c] + first, rest);
    SplitCons(c, first);
    var (q, tail) := (Split(first, '|'), Flatten(SplitEach(rest)));
    assert [""] + q + tail == [""] + (q + tail);
    assert [[c] + q[0]] + q[1..] + tail == [[c] + q[0]] + (q + tail)[1..];
  }

  lemma {:induction false} EachFirst(a: string, rest: seq<string>)
    ensures Flatten(SplitEach([a] + rest)) == Split(a, '|') + Flatten(SplitEach(rest))
  {
    hide Flatten, Split;
    assert SplitEach([a] + rest) == [Split(a, '|')] + SplitEach(rest);
    FlattenFirst(Split(a, '|'), SplitEach(rest));
  }

  lemma NoGroup()
    ensures Flatten<string>([]) == [] && Split("", '|') == [""]
    ensures SplitEach([""]) == [[""]] + []
  {
  }

  lemma SplitCons(c: char, first: string)
    ensures var r := Split(first, '|');
            Split([c] + first, '|') == if c == '|' then [[]] + r else [[c] + r[0]] + r[1..]
  {
    assert ([c] + first)[1..] == first;
  }

  lemma {:induction false} StripTwice(s: string)
    ensures var t := Replace(RStrip(s), '&', '|'); RStrip(t) == t
    decreases |s|
  {
    if s != [] && IsSpace(s[|s| - 1]) { StripTwice(s[..|s| - 1]); }
  }

  lemma {:induction false} ParseConcat(a: seq<string>, b: seq<string>)
    ensures ParseAll(a + b) == match (ParseAll(a), ParseAll(b))
                               case (Some(x), Some(y)) => Some(x + y)
                               case _ => None
    decreases |b|
  {
    hide ObtainKeyVal;
    if b == [] {
      assert a + b == a;
      match ParseAll(a) case None => case Some(x) => assert x + [] == x;
    } else {
      var n := |b| - 1;
      ParseConcat(a, b[..n]);
      assert (a + b)[..|a + b| - 1] == a + b[..n];
      match (ParseAll(a), ParseAll(b[..n]), ObtainKeyVal(b[n]))
      case (Some(x), Some(y), Some(p)) => assert x + y + [p] == x + (y + [p]);
      case _ =>
    }
  }

  lemma {:induction false} ParseFlat(pieces: seq<seq<string>>)
    ensures ParseAll(Flatten(pieces)) == match ParseGroups(pieces)
                                         case None => None
                                         case Some(gs) => Some(Flatten(gs))
    decreases |pieces|
  {
    hide ParseAll, Flatten;
    if pieces == [] {
      ParseNothing();
    } else {
      ParseFlat(pieces[1..]);
      assert pieces == [pieces[0]] + pieces[1..];
      FlattenFirst(pieces[0], pieces[1..]);
      ParseConcat(pieces[0], Flatten(pieces[1..]));
      match (ParseAll(pieces[0]), ParseGroups(pieces[1..]))
      case (Some(g), Some(gs)) => FlattenFirst(g, gs);
      case _ =>
    }
  }

  lemma ParseNothing()
    ensures ParseAll(Flatten([])) == Some([]) && Flatten<Pred>([]) == []
  {
  }

  /** The compiler sees the predicates of a text, without the groups. */
  lemma {:induction false} PiecesOfGroups(policy: string)
    ensures ParseAll(Pieces(policy)) == match GroupsOf(policy)
                                        case None => None
                                        case Some(gs) => Some(Flatten(gs))
  {
    hide ParseAll, Flatten, ParseGroups, Split, RStrip, Replace, SplitEach;
    StripTwice(policy);
    SplitReplaced(RStrip(policy));
    ParseFlat(SplitEach(Split(RStrip(policy), '&')));
  }

  lemma {:induction false} ParseEach(gs: seq<seq<Pred>>, pieces: seq<seq<string>>)
    requires |pieces| == |gs| && forall i :: 0 <= i < |gs| ==> ParseAll(pieces[i]) == Some(gs[i])
    ensures ParseGroups(pieces) == Some(gs)
    decreases |gs|
  {
    hide ParseAll;
    if gs != [] {
      ParseEach(gs[1..], pieces[1..]);
      assert gs == [gs[0]] + gs[1..];
    }
  }

  /** A policy written out is read back with its groups. */
  lemma {:induction false} GroupsRendered(gs: seq<seq<Pred>>)
    requires IsPolicy(gs)
    ensures GroupsOf(Render(gs)) == Some(gs)
  {
    hide ParseAll, ParseGroups, Join, Text, Clean, Split;
    RenderEnds(gs);
    forall i | 0 <= i < |gs|
      ensures '&' !in GroupTexts(gs)[i] && ParseAll(Split(GroupTexts(gs)[i], '|')) == Some(gs[i])
    {
      GroupText(gs[i]);
      SplitJoin(Texts(gs[i]), '|');
      ParseTexts(gs[i]);
    }
    SplitJoin(GroupTexts(gs), '&');
    ParseEach(gs, SplitEach(GroupTexts(gs)));
  }

  // -------------------------------------------------------------- meaning

  ghost predicate AnyOf(clause: set<Pred>, truth: iset<Pred>) {
    exists p :: p in clause && p in truth
  }

  ghost function Clause(g: seq<Pred>): set<Pred> { set p | p in g }

  /** A policy holds if in every group some predicate does. */
  ghost predicate Holds(gs: seq<seq<Pred>>, truth: iset<Pred>) {
    forall i :: 0 <= i < |gs| ==> AnyOf(Clause(gs[i]), truth)
  }

  function Arguments(e: Entry): seq<string> {
    match e case Many(vs) => vs case One(v) => [v]
  }

  ghost function EntryClause(key: string, e: Entry): set<Pred> {
    set v | v in Arguments(e) :: Pred(key, v)
  }

  /** A dictionary holds if for every name some argument does. */
  ghost predicate Allows(d: map<string, Entry>, truth: iset<Pred>) {
    forall key :: key in d ==> AnyOf(EntryClause(key, d[key]), truth)
  }

  ghost predicate SameMeaning(gs: seq<seq<Pred>>, d: map<string, Entry>) {
    forall truth: iset<Pred> :: Holds(gs, truth) <==> Allows(d, truth)
  }

  /** What the compiler keeps of the predicates with a given name. */
  ghost function Kept(ps: seq<Pred>, key: string): set<Pred>
    requires Uses(ps, key)
  {
    var vs := ValuesOf(ps, key);
    set v | v in (if Special(key) then [vs[0]] else vs) :: Pred(key, v)
  }

  ghost predicate CoversName(gs: seq<seq<Pred>>, g: seq<Pred>, key: string) {
    Uses(Flatten(gs), key) && Kept(Flatten(gs), key) <= Clause(g)
  }

  ghost predicate InName(gs: seq<seq<Pred>>, i: nat, key: string) {
    i < |gs| && Uses(Flatten(gs), key) && Clause(gs[i]) <= Kept(Flatten(gs), key)
  }

  ghost predicate HasName(gs: seq<seq<Pred>>, g: seq<Pred>) {
    exists key :: CoversName(gs, g, key)
  }

  ghost predicate HasGroup(gs: seq<seq<Pred>>, key: string) {
    exists i: nat :: InName(gs, i, key)
  }

  /** Every group contains all that is kept of some name, and all that is kept of
      a name contains some group. */
  ghost predicate Separable(gs: seq<seq<Pred>>) {
    && (forall i :: 0 <= i < |gs| ==> HasName(gs, gs[i]))
    && (forall key :: Uses(Flatten(gs), key) ==> HasGroup(gs, key))
  }

  lemma {:induction false} DictionaryClause(d: map<string, Entry>, ps: seq<Pred>, key: string)
    requires IsDictionary(d, ps) && Uses(ps, key)
    ensures key in d && EntryClause(key, d[key]) == Kept(ps, key)
  {
    hide ValuesOf;
  }

  lemma {:induction false} MoreIsTrue(a: set<Pred>, b: set<Pred>, truth: iset<Pred>)
    requires a <= b && AnyOf(a, truth)
    ensures AnyOf(b, truth)
  {
    var p :| p in a && p in truth;
    assert p in b;
  }

  lemma {:induction false} SeparableKeeps(gs: seq<seq<Pred>>, d: map<string, Entry>, truth: iset<Pred>)
    requires IsDictionary(d, Flatten(gs)) && Separable(gs)
    ensures Holds(gs, truth) <==> Allows(d, truth)
  {
    hide Kept, Clause, AnyOf, EntryClause, Flatten, Uses;
    var ps := Flatten(gs);
    if Allows(d, truth) {
      forall i | 0 <= i < |gs| ensures AnyOf(Clause(gs[i]), truth) {
        var key :| CoversName(gs, gs[i], key);
        DictionaryClause(d, ps, key);
        MoreIsTrue(Kept(ps, key), Clause(gs[i]), truth);
      }
    }
    if Holds(gs, truth) {
      forall key | key in d ensures AnyOf(EntryClause(key, d[key]), truth) {
        assert HasGroup(gs, key);
        var i: nat :| InName(gs, i, key);
        assert InName(gs, i, key);
        DictionaryClause(d, ps, key);
        MoreIsTrue(Clause(gs[i]), Kept(ps, key), truth);
      }
    }
  }

  /** The valuation that makes exactly one clause false. */
  lemma {:induction false} AllBut(clause: set<Pred>, other: set<Pred>)
    ensures !AnyOf(clause, iset p: Pred | p !in clause)
    ensures AnyOf(other, iset p: Pred | p !in clause) <==> !(other <= clause)
  {
  }

  lemma {:induction false} GroupIsCovered(gs: seq<seq<Pred>>, d: map<string, Entry>, i: nat) returns (key: string)
    requires IsDictionary(d, Flatten(gs)) && SameMeaning(gs, d) && i < |gs|
    ensures CoversName(gs, gs[i], key)
  {
    hide Kept, Clause, AnyOf, EntryClause, Flatten, Uses;
    var truth := iset p: Pred | p !in Clause(gs[i]);
    AllBut(Clause(gs[i]), {});
    assert !Holds(gs, truth);
    assert !Allows(d, truth);
    key :| key in d && !AnyOf(EntryClause(key, d[key]), truth);
    DictionaryClause(d, Flatten(gs), key);
    AllBut(Clause(gs[i]), Kept(Flatten(gs), key));
  }

  lemma {:induction false} NameIsCovered(gs: seq<seq<Pred>>, d: map<string, Entry>, key: string) returns (i: nat)
    requires IsDictionary(d, Flatten(gs)) && SameMeaning(gs, d) && Uses(Flatten(gs), key)
    ensures InName(gs, i, key)
  {
    hide Kept, Clause, AnyOf, EntryClause, Flatten, Uses;
    var kept := Kept(Flatten(gs), key);
    var truth := iset p: Pred | p !in kept;
    AllBut(kept, {});
    DictionaryClause(d, Flatten(gs), key);
    assert !Allows(d, truth);
    assert !Holds(gs, truth);
    i :| 0 <= i < |gs| && !AnyOf(Clause(gs[i]), truth);
    AllBut(kept, Clause(gs[i]));
  }

  /** The dictionary has the truth value of the policy under every valuation if
      and only if the policy is separable by name. */
  lemma {:induction false} MeaningExact(gs: seq<seq<Pred>>, d: map<string, Entry>)
    requires IsDictionary(d, Flatten(gs))
    ensures SameMeaning(gs, d) <==> Separable(gs)
  {
    hide Kept, Clause, Flatten, Uses, IsDictionary, CoversName, InName, Holds, Allows;
    if Separable(gs) {
      forall truth: iset<Pred> ensures Holds(gs, truth) <==> Allows(d, truth) {
        SeparableKeeps(gs, d, truth);
      }
    }
    if SameMeaning(gs, d) {
      forall i | 0 <= i < |gs| ensures HasName(gs, gs[i]) {
        var key := GroupIsCovered(gs, d, i);
      }
      forall key | Uses(Flatten(gs), key) ensures HasGroup(gs, key) {
        var i := NameIsCovered(gs, d, key);
        assert InName(gs, i, key);
      }
    }
  }

  // ------------------------------------------------- the documented policies

  /** Only equal names are joined by `|`, only different ones by `&`, and the two
      special names have one argument. */
  predicate Documented(gs: seq<seq<Pred>>) {
    && IsPolicy(gs)
    && (forall i, j :: 0 <= i < |gs| && 0 <= j < |gs[i]| ==> gs[i][j].key == gs[i][0].key)
    && (forall i, j :: 0 <= i < j < |gs| ==> gs[i][0].key != gs[j][0].key)
    && (forall i :: 0 <= i < |gs| && Special(gs[i][0].key) ==> |gs[i]| == 1)
  }

  function Vals(g: seq<Pred>): (r: seq<string>)
    ensures |r| == |g|
    ensures forall i :: 0 <= i < |g| ==> r[i] == g[i].val
  {
    seq(|g|, i requires 0 <= i < |g| => g[i].val)
  }

  lemma {:induction false} ValuesConcat(a: seq<Pred>, b: seq<Pred>, key: string)
    ensures ValuesOf(a + b, key) == ValuesOf(a, key) + ValuesOf(b, key)
    decreases |b|
  {
    if b == [] {
      assert a + b == a;
    } else {
      var n := |b| - 1;
      assert (a + b)[..|a + b| - 1] == a + b[..n];
      ValuesConcat(a, b[..n], key);
    }
  }

  lemma {:induction false} ValuesOfGroup(g: seq<Pred>, key: string)
    requires forall j :: 0 <= j < |g| ==> g[j].key == g[0].key
    ensures ValuesOf(g, key) == if g != [] && g[0].key == key then Vals(g) else []
    decreases |g|
  {
    if g != [] {
      var n := |g| - 1;
      ValuesOfGroup(g[..n], key);
      if g[0].key == key {
        assert Vals(g) == Vals(g[..n]) + [g[n].val];
      }
    }
  }

  lemma {:induction false} NoValues(gs: seq<seq<Pred>>, key: string)
    requires forall i, j :: 0 <= i < |gs| && 0 <= j < |gs[i]| ==> gs[i][j].key != key
    ensures ValuesOf(Flatten(gs), key) == []
    decreases |gs|
  {
    if gs != [] {
      NoValues(gs[1..], key);
      NoValuesInGroup(gs[0], key);
      ValuesConcat(gs[0], Flatten(gs[1..]), key);
    }
  }

  lemma {:induction false} NoValuesInGroup(g: seq<Pred>, key: string)
    requires forall j :: 0 <= j < |g| ==> g[j].key != key
    ensures ValuesOf(g, key) == []
    decreases |g|
  {
    if g != [] { NoValuesInGroup(g[..|g| - 1], key); }
  }

  /** The groups are recovered in order: a name has the arguments of its group. */
  lemma {:induction false} GroupRecovered(gs: seq<seq<Pred>>, i: nat)
    requires Documented(gs) && i < |gs|
    ensures ValuesOf(Flatten(gs), gs[i][0].key) == Vals(gs[i])
    decreases |gs|
  {
    hide ValuesOf, Clean;
    var key, rest: seq<seq<Pred>> := gs[i][0].key, gs[1..];
    ValuesConcat(gs[0], Flatten(rest), key);
    ValuesOfGroup(gs[0], key);
    if i == 0 {
      forall a, b | 0 <= a < |rest| && 0 <= b < |rest[a]| ensures rest[a][b].key != key {
        assert gs[a + 1][b].key == gs[a + 1][0].key;
      }
      NoValues(rest, key);
    } else {
      assert rest[i - 1] == gs[i];
      GroupRecovered(rest, i - 1);
    }
  }

  lemma {:induction false} NameHasGroup(gs: seq<seq<Pred>>, key: string) returns (i: nat)
    requires Documented(gs) && Uses(Flatten(gs), key)
    ensures i < |gs| && gs[i][0].key == key
  {
    hide ValuesOf, Clean, Flatten;
    if forall a :: 0 <= a < |gs| ==> gs[a][0].key != key {
      NoValues(gs, key);
      assert false;
    }
    i :| 0 <= i < |gs| && gs[i][0].key == key;
  }

  lemma {:induction false} GroupIsKept(gs: seq<seq<Pred>>, i: nat)
    requires Documented(gs) && i < |gs|
    ensures Uses(Flatten(gs), gs[i][0].key) && Kept(Flatten(gs), gs[i][0].key) == Clause(gs[i])
  {
    hide ValuesOf, Clean, Flatten;
    GroupRecovered(gs, i);
    var g, key := gs[i], gs[i][0].key;
    forall p | p in Clause(g) ensures p in Kept(Flatten(gs), key) {
      var j :| 0 <= j < |g| && g[j] == p;
      assert Vals(g)[j] == p.val && p.key == key;
      assert p == Pred(key, p.val);
    }
    forall p | p in Kept(Flatten(gs), key) ensures p in Clause(g) {
      var v :| v in Vals(g) && p == Pred(key, v);
      var j :| 0 <= j < |g| && Vals(g)[j] == v;
      assert g[j] == p;
    }
  }

  lemma {:induction false} DocumentedIsSeparable(gs: seq<seq<Pred>>)
    requires Documented(gs)
    ensures Separable(gs)
  {
    hide Documented, Kept, Clause, Flatten, Uses;
    forall i | 0 <= i < |gs| ensures HasName(gs, gs[i]) {
      GroupNotEmpty(gs, i);
      GroupIsKept(gs, i);
      assert CoversName(gs, gs[i], gs[i][0].key);
    }
    forall key | Uses(Flatten(gs), key) ensures HasGroup(gs, key) {
      var i := NameHasGroup(gs, key);
      GroupIsKept(gs, i);
      assert InName(gs, i, key);
    }
  }

  lemma GroupNotEmpty(gs: seq<seq<Pred>>, i: nat)
    requires Documented(gs) && i < |gs|
    ensures gs[i] != []
  {
  }

  // --------------------------------------------------------------- results

  /** For every text: the compiler gives None exactly for a text that is not a
      policy, reports the first required name that is not used, and otherwise
      gives a dictionary with the truth value of the policy under every valuation
      if and only if the policy is separable by name. */
  lemma {:induction false} CompileExact(policy: string)
    ensures Compile(policy) == NoPolicy <==> GroupsOf(policy) == None
    ensures GroupsOf(policy).Some? ==>
              var (ps, r) := (Flatten(GroupsOf(policy).value), Compile(policy));
              && (r == MissingKey("sessionKeyIs") <==> !Uses(ps, "sessionKeyIs"))
              && (r == MissingKey("query") <==> Uses(ps, "sessionKeyIs") && !Uses(ps, "query"))
              && (r.Policy? <==> Uses(ps, "sessionKeyIs") && Uses(ps, "query"))
    ensures Compile(policy).Policy? ==>
              (SameMeaning(GroupsOf(policy).value, Compile(policy).dict) <==> Separable(GroupsOf(policy).value))
  {
    hide Flatten, Uses, GroupsOf, ParseAll, Pieces, SameMeaning, Separable, Dictionary, IsDictionary;
    PiecesOfGroups(policy);
    if GroupsOf(policy).Some? {
      var gs := GroupsOf(policy).value;
      OneDictionary(Flatten(gs), Dictionary(Flatten(gs)));
      MeaningExact(gs, Dictionary(Flatten(gs)));
    }
  }

  /** The entries: a name is in the dictionary exactly if a predicate uses it. The
      session key and the query have the argument of the first predicate with their
      name; every other name has a list, with each of its predicates at the place
      that counts those of the same name before it. */
  lemma {:induction false} CompiledEntries(policy: string, i: nat)
    requires Compile(policy).Policy?
    ensures GroupsOf(policy).Some?
    ensures var (ps, d) := (Flatten(GroupsOf(policy).value), Compile(policy).dict);
            && (forall key :: key in d ==> exists j :: 0 <= j < |ps| && ps[j].key == key)
            && (i < |ps| ==>
                  && ps[i].key in d
                  && var (key, before) := (ps[i].key, CountName(ps[..i], ps[i].key));
                     if key == "sessionKeyIs" || key == "query"
                     then d[key].One? && (before == 0 ==> d[key].value == ps[i].val)
                     else d[key].Many? && |d[key].values| == CountName(ps, key)
                          && before < |d[key].values| && d[key].values[before] == ps[i].val)
  {
    hide Flatten, GroupsOf, ParseAll, Pieces, Dictionary, ValuesOf;
    PiecesOfGroups(policy);
    var ps := Flatten(GroupsOf(policy).value);
    OneDictionary(ps, Dictionary(ps));
    forall key | Uses(ps, key) ensures exists j :: 0 <= j < |ps| && ps[j].key == key {
      UsesMeansPresent(ps, key);
    }
    if i < |ps| { ValuePlace(ps, i); }
  }

  /** How many predicates have a name. */
  function CountName(ps: seq<Pred>, key: string): nat {
    if ps == [] then 0 else (if ps[0].key == key then 1 else 0) + CountName(ps[1..], key)
  }

  lemma {:induction false} CountNameLast(ps: seq<Pred>, p: Pred, key: string)
    ensures CountName(ps + [p], key) == CountName(ps, key) + if p.key == key then 1 else 0
    decreases |ps|
  {
    if ps == [] {
      assert ps + [p] == [p] && [p][1..] == [];
    } else {
      assert (ps + [p])[1..] == ps[1..] + [p];
      CountNameLast(ps[1..], p, key);
    }
  }

  lemma {:induction false} ValuesCounted(ps: seq<Pred>, key: string)
    ensures |ValuesOf(ps, key)| == CountName(ps, key)
    decreases |ps|
  {
    hide CountName;
    if ps == [] {
      NoName(key);
    } else {
      var n := |ps| - 1;
      ValuesCounted(ps[..n], key);
      CountNameLast(ps[..n], ps[n], key);
      assert ps == ps[..n] + [ps[n]];
    }
  }

  lemma NoName(key: string)
    ensures CountName([], key) == 0
  {
  }

  lemma {:induction false} ValuePlace(ps: seq<Pred>, i: nat)
    requires i < |ps|
    ensures var (key, vs) := (ps[i].key, ValuesOf(ps, ps[i].key));
            && |vs| == CountName(ps, key) && CountName(ps[..i], key) < |vs|
            && vs[CountName(ps[..i], key)] == ps[i].val
    decreases |ps|
  {
    hide CountName;
    var n, key := |ps| - 1, ps[i].key;
    ValuesCounted(ps, key);
    ValuesCounted(ps[..n], key);
    if i < n {
      ValuePlace(ps[..n], i);
      assert ps[..n][..i] == ps[..i];
    }
  }

  /** A policy as documented keeps its truth value under every valuation, and its
      groups are recovered in order. */
  lemma {:induction false} CompileDocumented(gs: seq<seq<Pred>>)
    requires Documented(gs) && Uses(Flatten(gs), SESSION_KEY) && Uses(Flatten(gs), QUERY)
    ensures Compile(Render(gs)).Policy? && SameMeaning(gs, Compile(Render(gs)).dict)
    ensures forall i :: 0 <= i < |gs| ==>
              var (key, d) := (gs[i][0].key, Compile(Render(gs)).dict);
              key in d && Arguments(d[key]) == Vals(gs[i])
  {
    hide Flatten, ValuesOf, Render, GroupsOf, ParseAll, Pieces, SameMeaning, Separable, Clean, Dictionary;
    GroupsRendered(gs);
    CompileExact(Render(gs));
    DocumentedIsSeparable(gs);
    PiecesOfGroups(Render(gs));
    OneDictionary(Flatten(gs), Dictionary(Flatten(gs)));
    forall i | 0 <= i < |gs|
      ensures var (key, d) := (gs[i][0].key, Compile(Render(gs)).dict);
              key in d && Arguments(d[key]) == Vals(gs[i])
    {
      GroupRecovered(gs, i);
    }
  }

  lemma {:induction false} ValueIsListed(ps: seq<Pred>, i: nat)
    requires i < |ps|
    ensures ps[i].val in ValuesOf(ps, ps[i].key)
    decreases |ps|
  {
    if i < |ps| - 1 { ValueIsListed(ps[..|ps| - 1], i); }
  }

  lemma {:induction false} OtherArgument(gs: seq<seq<Pred>>, i: nat, j: nat, key: string)
    requires i < |gs| && |gs[i]| == 1 && !Special(gs[i][0].key)
    requires j < |Flatten(gs)| && Flatten(gs)[j].key == gs[i][0].key && Flatten(gs)[j].val != gs[i][0].val
    ensures !CoversName(gs, gs[i], key)
  {
    hide Flatten, ValuesOf;
    var ps := Flatten(gs);
    if Uses(ps, key) {
      ValueIsListed(ps, j);
      var v := if key == ps[j].key then ps[j].val else ValuesOf(ps, key)[0];
      assert Pred(key, v) in Kept(ps, key);
      assert Pred(key, v) !in Clause(gs[i]);
    }
  }

  /** A name joined to itself by `&` with another argument loses the conjunction. */
  lemma {:induction false} RepeatedNameChangesMeaning(gs: seq<seq<Pred>>, i: nat, j: nat, d: map<string, Entry>)
    requires IsDictionary(d, Flatten(gs)) && i < |gs| && |gs[i]| == 1 && !Special(gs[i][0].key)
    requires j < |Flatten(gs)| && Flatten(gs)[j].key == gs[i][0].key && Flatten(gs)[j].val != gs[i][0].val
    ensures !SameMeaning(gs, d)
  {
    hide Flatten, IsDictionary, SameMeaning, CoversName;
    if SameMeaning(gs, d) {
      var key := GroupIsCovered(gs, d, i);
      OtherArgument(gs, i, j, key);
      assert false;
    }
  }

  lemma {:induction false} FlattenFour(a: Pred, b: Pred, c: Pred, d: Pred)
    ensures Flatten([[a], [b], [c], [d]]) == [a, b, c, d]
  {
    assert [[a], [b], [c], [d]][1..] == [[b], [c], [d]];
    assert [[b], [c], [d]][1..] == [[c], [d]];
    assert [[c], [d]][1..] == [[d]];
    assert [[d]][1..] == [];
    assert Flatten([[d]]) == [d];
    assert Flatten([[c], [d]]) == [c, d];
    assert Flatten([[b], [c], [d]]) == [b, c, d];
  }

  lemma {:induction false} FourIsPolicy(a: Pred, b: Pred, c: Pred, d: Pred)
    requires Clean(a) && Clean(b) && Clean(c) && Clean(d)
    requires a.key == SESSION_KEY && b.key == QUERY && c.key == d.key && !Special(c.key) && c.val != d.val
    ensures var gs := [[a], [b], [c], [d]];
            IsPolicy(gs) && Compile(Render(gs)).Policy? && !SameMeaning(gs, Compile(Render(gs)).dict)
  {
    hide SameMeaning, Separable, Compile, Render, GroupsOf, IsDictionary, ValuesOf, Flatten, Clean, Special;
    var gs := [[a], [b], [c], [d]];
    FlattenFour(a, b, c, d);
    ValueIsListed(Flatten(gs), 0);
    ValueIsListed(Flatten(gs), 1);
    GroupsRendered(gs);
    CompileExact(Render(gs));
    CompiledIsDictionary(gs);
    RepeatedNameChangesMeaning(gs, 2, 3, Compile(Render(gs)).dict);
  }

  /** For example: k(a) and k(b) becomes k(a) or k(b). */
  lemma {:induction false} ConjunctionLost()
    ensures var gs := [[Pred(SESSION_KEY, "s")], [Pred(QUERY, "q")], [Pred("k", "a")], [Pred("k", "b")]];
            IsPolicy(gs) && Compile(Render(gs)).Policy? && !SameMeaning(gs, Compile(Render(gs)).dict)
  {
    hide SameMeaning, Compile, Render, IsPolicy;
    FourIsPolicy(Pred(SESSION_KEY, "s"), Pred(QUERY, "q"), Pred("k", "a"), Pred("k", "b"));
  }

  lemma {:induction false} CompiledIsDictionary(gs: seq<seq<Pred>>)
    requires IsPolicy(gs) && Compile(Render(gs)).Policy?
    ensures IsDictionary(Compile(Render(gs)).dict, Flatten(gs))
  {
    hide Flatten, Uses, Render, GroupsOf, ParseAll, Pieces, Clean, Dictionary, IsDictionary;
    GroupsRendered(gs);
    PiecesOfGroups(Render(gs));
    OneDictionary(Flatten(gs), Dictionary(Flatten(gs)));
  }
}
