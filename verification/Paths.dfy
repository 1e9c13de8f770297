/** Slash paths into JSON trees (`jsonPath`, server.go). */
module Paths {
  import opened Prelude
  import opened Json
  import opened Text

  /** One segment: a field of an object or an element of an array. */
  function Child(cur: Json, part: string): Result<Json> {
    match cur
    case Obj(fields) => if part in fields then Ok(fields[part]) else Err("key not found")
    case Arr(items) =>
      var idx := ParseInt(part);
      if idx.None? then Err("expected array index")
      else if idx.value < 0 || idx.value >= |items| then Err("index out of range")
      else Ok(items[idx.value])
    case _ => Err("expected object or array")
  }

  function Walk(cur: Json, parts: seq<string>): Result<Json> {
    if parts == [] then Ok(cur)
    else if parts[0] == "" then Walk(cur, parts[1..])
    else
      match Child(cur, parts[0])
      case Err(e) => Err(e)
      case Ok(next) => Walk(next, parts[1..])
  }

  function TrimSlash(path: string): string {
    if path != [] && path[0] == '/' then path[1..] else path
  }

  function Resolve(data: Json, path: string): Result<Json> {
    Walk(data, Split(TrimSlash(path)))
  }

  /** The loop that reassigns `cur` segment by segment. */
  method JsonPath(data: Json, path: string) returns (r: Result<Json>)
    ensures r == Resolve(data, path)
  {
    var parts := Split(TrimSlash(path));
    var cur := data;
    for i := 0 to |parts|
      invariant Resolve(data, path) == Walk(cur, parts[i..])
    {
      var p := parts[i];
      assert parts[i..][1..] == parts[i + 1..];
      if p == "" {
        continue;
      }
      match cur {
        case Obj(fields) =>
          if p !in fields {
            return Err("key not found");
          }
          cur := fields[p];
        case Arr(items) =>
          var idx := ParseInt(p);
          if idx.None? {
            return Err("expected array index");
          }
          if idx.value < 0 || idx.value >= |items| {
            return Err("index out of range");
          }
          cur := items[idx.value];
        case _ =>
          return Err("expected object or array");
      }
    }
    return Ok(cur);
  }

  function Then(r: Result<Json>, parts: seq<string>): Result<Json> {
    match r
    case Err(e) => Err(e)
    case Ok(v) => Walk(v, parts)
  }

  lemma {:induction false} WalkConcat(cur: Json, a: seq<string>, b: seq<string>)
    ensures Walk(cur, a + b) == Then(Walk(cur, a), b)
  {
    if a == [] {
      assert a + b == b;
    } else {
      assert (a + b)[0] == a[0] && (a + b)[1..] == a[1..] + b;
      if a[0] == "" {
        WalkConcat(cur, a[1..], b);
      } else {
        match Child(cur, a[0])
        case Err(_) =>
        case Ok(next) => WalkConcat(next, a[1..], b);
      }
    }
  }

  /** Empty segments are neutral, so the leading slash is too. */
  lemma LeadingSlash(data: Json, path: string)
    ensures Resolve(data, path) == Walk(data, Split(path))
  {
    if path != [] && path[0] == '/' {
      assert path == [path[0]] + path[1..];
      SplitCons('/', path[1..]);
      assert ([[]] + Split(path[1..]))[1..] == Split(path[1..]);
    }
  }

  /** Resolving p and then q is resolving p/q, for all trees and paths; an error in p is the error. */
  lemma PathsCompose(data: Json, p: string, q: string)
    ensures Resolve(data, p + "/" + q) ==
            match Resolve(data, p)
            case Err(e) => Err(e)
            case Ok(v) => Resolve(v, q)
  {
    LeadingSlash(data, p + "/" + q);
    LeadingSlash(data, p);
    SplitConcat(p, q);
    WalkConcat(data, Split(p), Split(q));
    if Resolve(data, p).Ok? {
      LeadingSlash(Resolve(data, p).value, q);
    }
  }

  // ---------- printing the way to a node ----------

  datatype Step = Field(key: string) | Element(index: nat)

  /** The node that the steps lead to, by the structure of the tree alone. */
  function Access(cur: Json, steps: seq<Step>): Option<Json> {
    if steps == [] then Some(cur)
    else
      match (cur, steps[0])
      case (Obj(fields), Field(k)) => if k in fields then Access(fields[k], steps[1..]) else None
      case (Arr(items), Element(i)) => if i < |items| then Access(items[i], steps[1..]) else None
      case _ => None
  }

  function Segment(step: Step): string {
    match step
    case Field(k) => k
    case Element(i) => FormatInt(i)
  }

  function Print(steps: seq<Step>): string {
    if steps == [] then "" else Print(steps[..|steps| - 1]) + "/" + Segment(steps[|steps| - 1])
  }

  /** Keys can be written as segments; indices fit into Go's int, as those of every slice do. */
  predicate Printable(step: Step) {
    match step
    case Field(k) => k != "" && '/' !in k
    case Element(i) => i <= MAX_INT64
  }

  lemma {:induction false} AccessSnoc(cur: Json, steps: seq<Step>, last: Step)
    ensures Access(cur, steps + [last]) ==
            match Access(cur, steps)
            case None => None
            case Some(v) => Access(v, [last])
  {
    if steps == [] {
      assert steps + [last] == [last];
    } else {
      assert (steps + [last])[0] == steps[0] && (steps + [last])[1..] == steps[1..] + [last];
      match (cur, steps[0])
      case (Obj(fields), Field(k)) => if k in fields { AccessSnoc(fields[k], steps[1..], last); }
      case (Arr(items), Element(i)) => if i < |items| { AccessSnoc(items[i], steps[1..], last); }
      case _ =>
    }
  }

  lemma OneStep(cur: Json, step: Step)
    requires Printable(step) && Access(cur, [step]).Some?
    ensures Resolve(cur, Segment(step)) == Ok(Access(cur, [step]).value)
  {
    var s := Segment(step);
    if step.Element? {
      FormatNoSlash(step.index);
      FormatParse(step.index);
    }
    LeadingSlash(cur, s);
    SplitPlain(s);
    assert [s][1..] == [] && [step][1..] == [];
  }

  /** Every node is reached by the printed form of the way to it. */
  lemma {:induction false} PrintedPathResolves(data: Json, steps: seq<Step>)
    requires Access(data, steps).Some? && forall s :: s in steps ==> Printable(s)
    ensures Resolve(data, Print(steps)) == Ok(Access(data, steps).value)
  {
    if steps == [] {
      assert Print(steps) == "" && Split("") == [""] && [""][1..] == [];
      assert Walk(data, [""]) == Walk(data, [""][1..]) == Ok(data);
    } else {
      var init, last := steps[..|steps| - 1], steps[|steps| - 1];
      assert steps == init + [last];
      AccessSnoc(data, init, last);
      PrintedPathResolves(data, init);
      PathsCompose(data, Print(init), Segment(last));
      OneStep(Access(data, init).value, last);
    }
  }

  /** The segments that are not empty name the steps: a key by itself, an index by any text that parses
      to it. */
  predicate Spells(parts: seq<string>, steps: seq<Step>) {
    if parts == [] then steps == []
    else if parts[0] == "" then Spells(parts[1..], steps)
    else steps != [] && Names(parts[0], steps[0]) && Spells(parts[1..], steps[1..])
  }

  predicate Names(part: string, step: Step) {
    match step
    case Field(k) => part == k
    case Element(i) => ParseInt(part) == Some(i)
  }

  /** What a path resolves to is the node that its segments name. */
  lemma {:induction false} ResolvedIsNode(cur: Json, parts: seq<string>) returns (steps: seq<Step>)
    requires Walk(cur, parts).Ok?
    ensures Spells(parts, steps) && Access(cur, steps) == Some(Walk(cur, parts).value)
  {
    if parts == [] {
      steps := [];
    } else if parts[0] == "" {
      steps := ResolvedIsNode(cur, parts[1..]);
    } else {
      var next := Child(cur, parts[0]).value;
      var rest := ResolvedIsNode(next, parts[1..]);
      var first := if cur.Obj? then Field(parts[0]) else Element(ParseInt(parts[0]).value);
      steps := [first] + rest;
      assert steps[1..] == rest;
    }
  }

  /** Conversely, a node is found by every path whose segments name the way to it. */
  lemma {:induction false} SpelledResolves(cur: Json, parts: seq<string>, steps: seq<Step>)
    requires Spells(parts, steps) && Access(cur, steps).Some?
    ensures Walk(cur, parts) == Ok(Access(cur, steps).value)
  {
    if parts == [] {
    } else if parts[0] == "" {
      SpelledResolves(cur, parts[1..], steps);
    } else {
      match (cur, steps[0])
      case (Obj(fields), Field(k)) => SpelledResolves(fields[k], parts[1..], steps[1..]);
      case (Arr(items), Element(i)) => SpelledResolves(items[i], parts[1..], steps[1..]);
      case _ =>
    }
  }

  /** Exactly so: a path resolves to a value if and only if its segments name a way to it. */
  lemma ResolvesExactly(data: Json, path: string, v: Json)
    ensures Resolve(data, path) == Ok(v) <==>
            exists steps :: Spells(Split(path), steps) && Access(data, steps) == Some(v)
  {
    LeadingSlash(data, path);
    if Resolve(data, path) == Ok(v) {
      var steps := ResolvedIsNode(data, Split(path));
    }
    if steps :| Spells(Split(path), steps) && Access(data, steps) == Some(v) {
      SpelledResolves(data, Split(path), steps);
    }
  }
}
