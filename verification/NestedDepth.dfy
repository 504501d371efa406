// httpval/nested_depth.go: one pass over the tokens of a JSON stream, against the
// trees those tokens spell.
module NestedDepthModel {
  import opened Prelude

  // What json.Decoder yields: an opening or closing bracket, or anything else
  // (a scalar or an object key).
  datatype Token = Open | Close | Atom

  datatype Report = Clean | Bomb(reason: string, depth: int, keys: int)

  datatype Limits = Limits(maxDepth: int, maxKeys: int)

  // ---- the pass ----

  datatype Scan = Running(depth: int, keys: int) | Stopped(report: Report)

  function Read(l: Limits, s: Scan, t: Token): Scan {
    match s
    case Stopped(_) => s
    case Running(depth, keys) =>
      match t
      case Open => if depth + 1 > l.maxDepth then Stopped(Bomb("depth", depth + 1, keys)) else Running(depth + 1, keys)
      case Close => Running(depth - 1, keys)
      case Atom =>
        if l.maxKeys > 0 && keys + 1 > l.maxKeys then Stopped(Bomb("keys", depth, keys + 1))
        else Running(depth, keys + 1)
  }

  function ReadAll(l: Limits, s: Scan, tokens: seq<Token>): Scan
    decreases |tokens|
  {
    if tokens == [] then s else ReadAll(l, Read(l, s, tokens[0]), tokens[1..])
  }

  // The tokens up to the end of the input or its first syntax error.
  function Detect(l: Limits, tokens: seq<Token>): Report {
    match ReadAll(l, Running(0, 0), tokens)
    case Stopped(report) => report
    case Running(_, _) => Clean
  }

  // ---- the trees ----

  datatype Json = Scalar | Array(items: seq<Json>) | Object(members: seq<Json>)

  // An object member is its key and its value.
  function Tokens(v: Json): seq<Token> {
    match v
    case Scalar => [Atom]
    case Array(items) => [Open] + Stream(items, []) + [Close]
    case Object(members) => [Open] + Stream(members, [Atom]) + [Close]
  }

  // Values one after another, each behind the given prefix.
  function Stream(values: seq<Json>, prefix: seq<Token>): seq<Token> {
    if values == [] then [] else prefix + Tokens(values[0]) + Stream(values[1..], prefix)
  }

  function Height(v: Json): nat {
    match v
    case Scalar => 0
    case Array(items) => 1 + Tallest(items)
    case Object(members) => 1 + Tallest(members)
  }

  function Tallest(values: seq<Json>): nat {
    if values == [] then 0
    else if Height(values[0]) > Tallest(values[1..]) then Height(values[0]) else Tallest(values[1..])
  }

  // Scalars and object keys.
  function Elements(v: Json): nat {
    match v
    case Scalar => 1
    case Array(items) => Total(items)
    case Object(members) => |members| + Total(members)
  }

  function Total(values: seq<Json>): nat {
    if values == [] then 0 else Elements(values[0]) + Total(values[1..])
  }

  // ---- reading a part of the stream ----

  lemma {:induction false} ReadAllConcat(l: Limits, s: Scan, a: seq<Token>, b: seq<Token>)
    ensures ReadAll(l, s, a + b) == ReadAll(l, ReadAll(l, s, a), b)
    decreases |a|
  {
    if a == [] {
      assert a + b == b;
    } else {
      assert (a + b)[1..] == a[1..] + b;
      ReadAllConcat(l, Read(l, s, a[0]), a[1..], b);
    }
  }

  lemma {:induction false} StoppedStays(l: Limits, report: Report, tokens: seq<Token>)
    ensures ReadAll(l, Stopped(report), tokens) == Stopped(report)
  {
    if tokens != [] {
      StoppedStays(l, report, tokens[1..]);
    }
  }

  // A depth limit below zero acts like zero: only opening brackets are checked.
  function DepthLimit(l: Limits): nat {
    if l.maxDepth > 0 then l.maxDepth else 0
  }

  predicate Fits(l: Limits, depth: int, keys: int, height: nat, elements: nat) {
    depth + height <= DepthLimit(l) && (l.maxKeys > 0 ==> keys + elements <= l.maxKeys)
  }

  // The report of a pass that stopped names a limit passed by exactly one.
  predicate IsExact(l: Limits, report: Report) {
    report.Bomb? &&
    (|| (report.reason == "depth" && report.depth == DepthLimit(l) + 1 && (l.maxKeys > 0 ==> report.keys <= l.maxKeys))
     || (report.reason == "keys" && l.maxKeys > 0 && report.keys == l.maxKeys + 1 && report.depth <= DepthLimit(l)))
  }

  // Reading a part that fits adds its elements and returns to the same depth;
  // reading one that does not stops with an exact report.
  predicate ReadsAs(l: Limits, depth: int, keys: int, height: nat, elements: nat, result: Scan) {
    if Fits(l, depth, keys, height, elements) then result == Running(depth, keys + elements)
    else result.Stopped? && IsExact(l, result.report)
  }

  lemma ReadOne(l: Limits, s: Scan, t: Token)
    ensures ReadAll(l, s, [t]) == Read(l, s, t)
  {
    assert [t][1..] == [];
  }

  lemma {:induction false} ReadValue(l: Limits, v: Json, depth: int, keys: int)
    requires depth >= 0 && keys >= 0 && Fits(l, depth, keys, 0, 0)
    ensures ReadsAs(l, depth, keys, Height(v), Elements(v), ReadAll(l, Running(depth, keys), Tokens(v)))
    decreases v, 1, 0
  {
    match v
    case Scalar => ReadOne(l, Running(depth, keys), Atom);
    case Array(items) => ReadBracketed(l, v, items, [], depth, keys);
    case Object(members) => ReadBracketed(l, v, members, [Atom], depth, keys);
  }

  // Brackets around a part cost one level; a report inside them stands.
  lemma ReadBrackets(l: Limits, inner: seq<Token>, depth: int, keys: int)
    ensures var s, entered := Running(depth, keys), Read(l, Running(depth, keys), Open);
            ReadAll(l, s, [Open] + inner + [Close]) ==
            if entered.Stopped? then entered else Read(l, ReadAll(l, entered, inner), Close)
  {
    var s := Running(depth, keys);
    var entered := Read(l, s, Open);
    ReadAllConcat(l, s, [Open] + inner, [Close]);
    ReadAllConcat(l, s, [Open], inner);
    ReadOne(l, s, Open);
    hide ReadAll;
    if entered.Stopped? {
      StoppedStays(l, entered.report, inner);
      StoppedStays(l, entered.report, [Close]);
    } else {
      ReadOne(l, ReadAll(l, entered, inner), Close);
    }
  }

  lemma {:induction false} ReadBracketed(l: Limits, v: Json, values: seq<Json>, prefix: seq<Token>, depth: int,
                                         keys: int)
    requires depth >= 0 && keys >= 0 && Fits(l, depth, keys, 0, 0)
    requires (v == Array(values) && prefix == []) || (v == Object(values) && prefix == [Atom])
    ensures ReadsAs(l, depth, keys, Height(v), Elements(v), ReadAll(l, Running(depth, keys), Tokens(v)))
    decreases v, 0, 0
  {
    hide ReadAll, Stream, Total, Tallest;
    ReadBrackets(l, Stream(values, prefix), depth, keys);
    if Read(l, Running(depth, keys), Open).Running? {
      ReadStream(l, values, prefix, depth + 1, keys);
    }
  }

  lemma {:induction false} ReadStream(l: Limits, values: seq<Json>, prefix: seq<Token>, depth: int, keys: int)
    requires depth >= 0 && keys >= 0 && Fits(l, depth, keys, 0, 0)
    requires prefix == [] || prefix == [Atom]
    ensures ReadsAs(l, depth, keys, Tallest(values), |prefix| * |values| + Total(values),
                    ReadAll(l, Running(depth, keys), Stream(values, prefix)))
    decreases values, 0, |values|
  {
    if values != [] {
      var s := Running(depth, keys);
      var head, tail := Tokens(values[0]), Stream(values[1..], prefix);
      ReadAllConcat(l, s, prefix + head, tail);
      ReadAllConcat(l, s, prefix, head);
      if prefix == [Atom] {
        ReadOne(l, s, Atom);
      }
      var s1 := ReadAll(l, s, prefix);
      if s1.Stopped? {
        StoppedStays(l, s1.report, head);
        StoppedStays(l, s1.report, tail);
      } else {
        ReadValue(l, values[0], depth, keys + |prefix|);
        var s2 := ReadAll(l, s1, head);
        if s2.Stopped? {
          StoppedStays(l, s2.report, tail);
        } else {
          ReadStream(l, values[1..], prefix, depth, s2.keys);
        }
      }
    }
  }

  // ---- results ----

  // A stream of complete values is reported exactly if one of them is higher than
  // MaxDepth or, with a positive MaxKeys, they hold more elements together; the
  // reported figure is then one past its limit, and otherwise the depth is back
  // at zero.
  lemma StreamingEqualsTree(l: Limits, values: seq<Json>)
    ensures var report := Detect(l, Stream(values, []));
            && (report.Bomb? <==> Tallest(values) > DepthLimit(l) || (l.maxKeys > 0 && Total(values) > l.maxKeys))
            && (report.Bomb? ==> IsExact(l, report))
            && (report.Clean? ==> ReadAll(l, Running(0, 0), Stream(values, [])) == Running(0, Total(values)))
  {
    ReadStream(l, values, [], 0, 0);
  }

  // The same for one document.
  lemma DocumentEqualsTree(l: Limits, v: Json)
    ensures var report := Detect(l, Tokens(v));
            && (report.Bomb? <==> Height(v) > DepthLimit(l) || (l.maxKeys > 0 && Elements(v) > l.maxKeys))
            && (report.Bomb? ==> IsExact(l, report))
  {
    ReadValue(l, v, 0, 0);
  }

  // A reported prefix stays reported, with the same result, whatever follows.
  lemma ReportIsFinal(l: Limits, tokens: seq<Token>, more: seq<Token>)
    requires Detect(l, tokens).Bomb?
    ensures Detect(l, tokens + more) == Detect(l, tokens)
  {
    ReadAllConcat(l, Running(0, 0), tokens, more);
    StoppedStays(l, ReadAll(l, Running(0, 0), tokens).report, more);
  }

  // ---- every token sequence ----

  // Opening minus closing brackets.
  function Net(tokens: seq<Token>): int {
    if tokens == [] then 0
    else Net(Front(tokens)) + match Last(tokens) case Open => 1 case Close => -1 case Atom => 0
  }

  function NetAt(tokens: seq<Token>, p: nat): int
    requires p <= |tokens|
  {
    Net(tokens[..p])
  }

  function Atoms(tokens: seq<Token>): nat {
    if tokens == [] then 0 else Atoms(Front(tokens)) + if Last(tokens).Atom? then 1 else 0
  }

  // Some opening bracket goes past MaxDepth.
  predicate TooDeep(l: Limits, tokens: seq<Token>) {
    tokens != [] && (TooDeep(l, Front(tokens)) || (Last(tokens).Open? && Net(tokens) > l.maxDepth))
  }

  predicate TooMany(l: Limits, tokens: seq<Token>) {
    l.maxKeys > 0 && Atoms(tokens) > l.maxKeys
  }

  lemma {:induction false} ScanOfTokens(l: Limits, tokens: seq<Token>)
    ensures var s := ReadAll(l, Running(0, 0), tokens);
            if TooDeep(l, tokens) || TooMany(l, tokens) then s.Stopped? && s.report.Bomb?
            else s == Running(Net(tokens), Atoms(tokens))
  {
    if tokens != [] {
      var front, last := Front(tokens), Last(tokens);
      ScanOfTokens(l, front);
      assert tokens == front + [last];
      ReadAllConcat(l, Running(0, 0), front, [last]);
      ReadOne(l, ReadAll(l, Running(0, 0), front), last);
    }
  }

  // What the decoder guarantees: no bracket closes that was not opened.
  ghost predicate NeverNegative(tokens: seq<Token>) {
    forall p :: 0 <= p <= |tokens| ==> NetAt(tokens, p) >= 0
  }

  lemma NeverNegativeFront(tokens: seq<Token>)
    requires tokens != [] && NeverNegative(tokens)
    ensures NeverNegative(Front(tokens)) && Net(tokens) >= 0
    ensures forall p :: 0 <= p <= |tokens| - 1 ==> NetAt(Front(tokens), p) == NetAt(tokens, p)
  {
    forall p | 0 <= p <= |tokens| - 1 ensures NetAt(Front(tokens), p) == NetAt(tokens, p) {
      assert Front(tokens)[..p] == tokens[..p];
    }
    assert tokens[..|tokens|] == tokens;
    assert NetAt(tokens, |tokens|) == Net(tokens);
  }

  lemma {:induction false} TooDeepIsDepth(l: Limits, tokens: seq<Token>)
    requires NeverNegative(tokens)
    ensures TooDeep(l, tokens) <==> exists p :: 0 <= p <= |tokens| && NetAt(tokens, p) > DepthLimit(l)
  {
    if tokens == [] {
      assert NetAt(tokens, 0) == 0;
    } else {
      var n := |tokens|;
      NeverNegativeFront(tokens);
      TooDeepIsDepth(l, Front(tokens));
      assert NetAt(tokens, n) == Net(tokens) by { assert tokens[..n] == tokens; }
      assert NetAt(tokens, n - 1) == Net(Front(tokens));
      assert NeverNegative(Front(tokens)) ==> NetAt(Front(tokens), n - 1) >= 0;
    }
  }

  // Any input, complete or not, is reported exactly if the tokens before its end
  // or its first error nest too deeply somewhere or hold too many elements.
  lemma ReportedIff(l: Limits, tokens: seq<Token>)
    requires NeverNegative(tokens)
    ensures Detect(l, tokens).Bomb? <==>
            || (exists p :: 0 <= p <= |tokens| && NetAt(tokens, p) > DepthLimit(l))
            || (l.maxKeys > 0 && Atoms(tokens) > l.maxKeys)
  {
    ScanOfTokens(l, tokens);
    TooDeepIsDepth(l, tokens);
  }

  // Every report, complete or not, names a limit passed by exactly one.
  lemma {:induction false} ReportIsExact(l: Limits, tokens: seq<Token>)
    requires NeverNegative(tokens)
    ensures Detect(l, tokens).Bomb? ==> IsExact(l, Detect(l, tokens))
    ensures Detect(l, tokens).Clean? ==>
              0 <= Net(tokens) <= DepthLimit(l) && (l.maxKeys > 0 ==> Atoms(tokens) <= l.maxKeys)
  {
    if tokens != [] {
      var front, last := Front(tokens), Last(tokens);
      NeverNegativeFront(tokens);
      ReportIsExact(l, front);
      ScanOfTokens(l, front);
      assert tokens == front + [last];
      ReadAllConcat(l, Running(0, 0), front, [last]);
      ReadOne(l, ReadAll(l, Running(0, 0), front), last);
    }
  }

  // A report names the first token that passes a limit: the input up to there has
  // the depth and the elements reported, and no shorter input is reported.
  lemma {:induction false} ReportNamesFirst(l: Limits, tokens: seq<Token>) returns (p: nat)
    requires Detect(l, tokens).Bomb?
    ensures p < |tokens| && Detect(l, tokens[..p]).Clean?
    ensures var upto := tokens[..p + 1];
            Detect(l, tokens) ==
            Bomb(if tokens[p].Open? then "depth" else "keys", Net(upto), Atoms(upto))
  {
    assert tokens != [];
    var front := Front(tokens);
    if Detect(l, front).Bomb? {
      p := ReportNamesFirst(l, front);
      assert front[..p] == tokens[..p] && front[..p + 1] == tokens[..p + 1];
      assert tokens == front + [Last(tokens)];
      ReportIsFinal(l, front, [Last(tokens)]);
    } else {
      p := |front|;
      assert tokens[..p] == front && tokens[..p + 1] == tokens;
      assert tokens == front + [Last(tokens)];
      ScanOfTokens(l, front);
      ReadAllConcat(l, Running(0, 0), front, [Last(tokens)]);
      ReadOne(l, ReadAll(l, Running(0, 0), front), Last(tokens));
    }
  }

  // ---- input that breaks off ----

  function Opens(n: nat): seq<Token> {
    if n == 0 then [] else Opens(n - 1) + [Open]
  }

  lemma {:induction false} ReadOpens(l: Limits, n: nat)
    requires n <= DepthLimit(l)
    ensures ReadAll(l, Running(0, 0), Opens(n)) == Running(n, 0)
  {
    if n > 0 {
      ReadOpens(l, n - 1);
      ReadAllConcat(l, Running(0, 0), Opens(n - 1), [Open]);
      ReadOne(l, Running(n - 1, 0), Open);
    }
  }

  // Brackets that are never closed are no JSON value, and still they are reported
  // once there are too many: malformed input can be flagged.
  lemma UnclosedBracketsAreReported(l: Limits, values: seq<Json>)
    ensures var tokens := Opens(DepthLimit(l) + 1);
            Detect(l, tokens) == Bomb("depth", DepthLimit(l) + 1, 0) && tokens != Stream(values, [])
  {
    var n := DepthLimit(l);
    ReadOpens(l, n);
    ReadAllConcat(l, Running(0, 0), Opens(n), [Open]);
    ReadOne(l, Running(n, 0), Open);
    // with room for the brackets the pass would end below the surface
    var roomy := Limits(n + 1, 0);
    ReadOpens(roomy, n + 1);
    ReadStream(roomy, values, [], 0, 0);
  }
}

module NestedDepthClass {
  import opened NestedDepthModel

  class NestedDepth {
    const limits: Limits

    constructor (maxDepth: int, maxKeys: int)
      ensures limits.maxKeys == maxKeys
      ensures limits.maxDepth == if maxDepth <= 0 then 32 else maxDepth
      ensures limits.maxDepth > 0
    {
      var depth := maxDepth;
      if depth <= 0 {
        depth := 32;
      }
      limits := Limits(depth, maxKeys);
    }

    // The loop ends at the first limit passed or when no token is left.
    method Detect(tokens: seq<Token>) returns (report: Report)
      ensures report == NestedDepthModel.Detect(limits, tokens)
    {
      var depth, keys := 0, 0;
      var i := 0;
      while i < |tokens|
        invariant 0 <= i <= |tokens|
        invariant ReadAll(limits, Running(0, 0), tokens) == ReadAll(limits, Running(depth, keys), tokens[i..])
      {
        ghost var read := Read(limits, Running(depth, keys), tokens[i]);
        assert tokens[i..][1..] == tokens[i + 1..];
        assert ReadAll(limits, Running(depth, keys), tokens[i..]) == ReadAll(limits, read, tokens[i + 1..]);
        match tokens[i] {
          case Open =>
            depth := depth + 1;
            if depth > limits.maxDepth {
              StoppedStays(limits, read.report, tokens[i + 1..]);
              return Bomb("depth", depth, keys);
            }
          case Close =>
            depth := depth - 1;
          case Atom =>
            keys := keys + 1;
            if limits.maxKeys > 0 && keys > limits.maxKeys {
              StoppedStays(limits, read.report, tokens[i + 1..]);
              return Bomb("keys", depth, keys);
            }
        }
        i := i + 1;
      }
      return Clean;
    }
  }
}
