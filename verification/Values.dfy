/** Runtime values, and reading them by dot-path. */
module Values {
  import opened Options

  datatype Emission = EmitValue(text: string) | EmitOmit | EmitNull

  /** `Missing` is the MISSING sentinel, `Null` is None. */
  datatype Value =
    | Missing | Null
    | Bool(b: bool) | Int(i: int) | Float(f: real) | Str(s: string)
    | Decimal(d: real) | Date(day: int) | DateTime(at: real)
    | List(items: seq<Value>) | Obj(fields: map<string, Value>)
    | Emitted(emission: Emission)

  /** Library calls that stay abstract: `str(value)` and `int(text)`, which are
      None where they raise, `text.strip()`, `text.lower()` and `text.upper()`. */
  datatype Host = Host(
    str: Value -> Option<string>, toIndex: string -> Option<int>,
    strip: string -> string, lower: string -> string, upper: string -> string)

  /** A block of a schema object gives this value under the key. */
  ghost predicate Says(mapping: map<string, Value>, block: string, key: string, v: Value) {
    && block in mapping && mapping[block].Obj?
    && key in mapping[block].fields && mapping[block].fields[key] == v
  }

  /** `str(n)` for an index. */
  function Decimal10(n: nat): string {
    if n < 10 then [(n as char) + '0'] else Decimal10(n / 10) + [((n % 10) as char) + '0']
  }

  ghost predicate IsDigit(c: char) { '0' <= c <= '9' }

  /** The number that decimal digits stand for. */
  ghost function NumberOf(digits: string): nat
    requires forall i :: 0 <= i < |digits| ==> IsDigit(digits[i])
  {
    if digits == "" then 0
    else
      var last := digits[|digits| - 1];
      assert IsDigit(last);
      NumberOf(digits[..|digits| - 1]) * 10 + (last - '0') as nat
  }

  /** The text of an index is its number in decimal digits, without leading zeros. */
  lemma {:induction false} DecimalIsRead(n: nat)
    ensures var text := Decimal10(n);
      && (forall i :: 0 <= i < |text| ==> IsDigit(text[i])) && NumberOf(text) == n
      && text != "" && (text[0] == '0' ==> n == 0)
  {
    if n < 10 {
      assert Decimal10(n)[..0] == "";
      assert NumberOf("") == 0;
    } else {
      DecimalIsRead(n / 10);
      assert Decimal10(n)[..|Decimal10(n)| - 1] == Decimal10(n / 10);
    }
  }

  /** `path.split(".")`, read from the right: a dot opens a new segment, any
      other character extends the first one. */
  function Split(path: string): (segments: seq<string>)
    ensures segments != []
  {
    if path == "" then [""] else SplitStep(path[0], Split(path[1..]))
  }

  function SplitStep(c: char, rest: seq<string>): (segments: seq<string>)
    requires rest != []
    ensures segments != []
  {
    if c == '.' then [""] + rest else [[c] + rest[0]] + rest[1..]
  }

  lemma SplitStepAppend(c: char, head: seq<string>, tail: seq<string>)
    requires head != []
    ensures SplitStep(c, head + tail) == SplitStep(c, head) + tail
  {
  }

  /** Splitting undoes joining with a dot. */
  lemma {:induction false} SplitJoined(a: string, b: string)
    ensures Split(a + "." + b) == Split(a) + Split(b)
  {
    if a == "" {
      assert (a + "." + b)[1..] == b;
    } else {
      SplitJoined(a[1..], b);
      assert (a + "." + b)[1..] == a[1..] + "." + b;
      SplitStepAppend(a[0], Split(a[1..]), Split(b));
    }
  }

  /** `".".join(segments)` */
  function Join(segments: seq<string>): string
    requires segments != []
  {
    if |segments| == 1 then segments[0] else segments[0] + "." + Join(segments[1..])
  }

  ghost predicate DotFree(segments: seq<string>) {
    forall i :: 0 <= i < |segments| ==> '.' !in segments[i]
  }

  /** The segments of a path are the one list of dot-free texts that it joins. */
  lemma SplitIff(path: string, segments: seq<string>)
    requires segments != []
    ensures Split(path) == segments <==> DotFree(segments) && Join(segments) == path
  {
    SplitIsDotFree(path);
    if DotFree(segments) && Join(segments) == path {
      SplitOfJoin(segments);
    }
  }

  lemma StepJoins(c: char, rest: seq<string>)
    requires rest != []
    ensures Join(SplitStep(c, rest)) == [c] + Join(rest)
  {
    var segments := SplitStep(c, rest);
    if c == '.' {
      assert segments[1..] == rest;
    } else {
      assert segments[0] == [c] + rest[0] && segments[1..] == rest[1..];
      if |rest| > 1 {
        assert [c] + rest[0] + "." + Join(rest[1..]) == [c] + (rest[0] + "." + Join(rest[1..]));
      }
    }
  }

  lemma StepIsDotFree(c: char, rest: seq<string>)
    requires rest != [] && DotFree(rest)
    ensures DotFree(SplitStep(c, rest))
  {
    var segments := SplitStep(c, rest);
    forall i | 0 <= i < |segments| ensures '.' !in segments[i] {
      if c == '.' {
        if i > 0 { assert segments[i] == rest[i - 1]; }
      } else if i > 0 {
        assert segments[i] == rest[i];
      }
    }
  }

  lemma {:induction false} SplitIsDotFree(path: string)
    ensures DotFree(Split(path)) && Join(Split(path)) == path
  {
    hide DotFree, SplitStep;
    if path == "" {
      NoSegmentsYet();
    } else {
      SplitIsDotFree(path[1..]);
      StepJoins(path[0], Split(path[1..]));
      StepIsDotFree(path[0], Split(path[1..]));
      assert path == [path[0]] + path[1..];
    }
  }

  lemma NoSegmentsYet()
    ensures DotFree([""])
  {
  }

  lemma {:induction false} SplitOfJoin(segments: seq<string>)
    requires segments != [] && DotFree(segments)
    ensures Split(Join(segments)) == segments
  {
    SplitOne(segments[0]);
    if |segments| > 1 {
      SplitOfJoin(segments[1..]);
      SplitJoined(segments[0], Join(segments[1..]));
      assert segments == [segments[0]] + segments[1..];
    }
  }

  lemma {:induction false} SplitOne(text: string)
    requires '.' !in text
    ensures Split(text) == [text]
  {
    if text != "" {
      SplitOne(text[1..]);
      assert [text[0]] + text[1..] == text;
    }
  }

  /** The value at a segment path: fields by name, list items by index, MISSING
      as soon as a segment does not resolve. */
  function Lookup(host: Host, v: Value, segments: seq<string>): Value {
    if segments == [] then v
    else match v
      case Obj(fields) =>
        if segments[0] in fields then Lookup(host, fields[segments[0]], segments[1..]) else Missing
      case List(items) =>
        (match host.toIndex(segments[0])
         case Some(i) => if 0 <= i < |items| then Lookup(host, items[i], segments[1..]) else Missing
         case None => Missing)
      case _ => Missing
  }

  /** w is where the segment leads to from v: a dict's field of that name, or a
      list's item at that index. */
  ghost predicate Leads(host: Host, v: Value, segment: string, w: Value) {
    || (v.Obj? && segment in v.fields && v.fields[segment] == w)
    || (v.List? && exists i :: 0 <= i < |v.items| && host.toIndex(segment) == Some(i) && v.items[i] == w)
  }

  /** The values passed on the way from v. */
  ghost predicate Trail(host: Host, v: Value, segments: seq<string>, trail: seq<Value>) {
    && |trail| == |segments| + 1 && trail[0] == v
    && forall i :: 0 <= i < |segments| ==> Leads(host, trail[i], segments[i], trail[i + 1])
  }

  /** What is read is where the segments lead to, one after the other; and
      nothing but MISSING is read where they lead nowhere. */
  lemma LookupIff(host: Host, v: Value, segments: seq<string>, w: Value)
    requires w != Missing
    ensures Lookup(host, v, segments) == w
      <==> exists trail :: Trail(host, v, segments, trail) && trail[|segments|] == w
  {
    if Lookup(host, v, segments) == w {
      var trail := LookupHasTrail(host, v, segments);
      assert Trail(host, v, segments, trail);
    }
    if exists trail :: Trail(host, v, segments, trail) && trail[|segments|] == w {
      var trail :| Trail(host, v, segments, trail) && trail[|segments|] == w;
      LookupFollowsTrail(host, v, segments, trail);
    }
  }

  lemma {:induction false} LookupFollowsTrail(host: Host, v: Value, segments: seq<string>, trail: seq<Value>)
    requires Trail(host, v, segments, trail)
    ensures Lookup(host, v, segments) == trail[|segments|]
  {
    if segments != [] {
      assert Leads(host, trail[0], segments[0], trail[1]);
      forall i | 0 <= i < |segments| - 1 ensures Leads(host, trail[1..][i], segments[1..][i], trail[1..][i + 1]) {
        assert Leads(host, trail[i + 1], segments[i + 1], trail[i + 2]);
      }
      LookupFollowsTrail(host, trail[1], segments[1..], trail[1..]);
    }
  }

  lemma {:induction false} LookupHasTrail(host: Host, v: Value, segments: seq<string>) returns (trail: seq<Value>)
    requires Lookup(host, v, segments) != Missing
    ensures Trail(host, v, segments, trail) && trail[|segments|] == Lookup(host, v, segments)
  {
    trail := [v];
    if segments != [] {
      var next := if v.Obj? then v.fields[segments[0]] else v.items[host.toIndex(segments[0]).value];
      var rest := LookupHasTrail(host, next, segments[1..]);
      trail := [v] + rest;
      assert Leads(host, v, segments[0], next);
    }
  }

  /** `_extract_by_source_path`, whose empty path reads nothing. */
  function Extract(host: Host, record: map<string, Value>, path: string): Value {
    if path == "" then Missing else Lookup(host, Obj(record), Split(path))
  }

  method ExtractBySourcePath(host: Host, record: map<string, Value>, path: string) returns (v: Value)
    ensures v == Extract(host, record, path)
  {
    if path == "" {
      return Missing;
    }
    var segments := Split(path);
    var current := Obj(record);
    assert segments[0..] == segments;
    for k := 0 to |segments|
      invariant Lookup(host, current, segments[k..]) == Lookup(host, Obj(record), segments)
    {
      assert segments[k..][1..] == segments[k + 1..];
      match current {
        case Obj(fields) =>
          if segments[k] !in fields {
            return Missing;
          }
          current := fields[segments[k]];
        case List(items) =>
          match host.toIndex(segments[k]) {
            case None => return Missing;
            case Some(index) =>
              if index < 0 || index >= |items| {
                return Missing;
              }
              current := items[index];
          }
        case _ => return Missing;
      }
    }
    v := current;
  }

  /** `_get_path`; None where it raises because the path argument is no
      non-empty string. */
  method GetPath(host: Host, value: Value, path: Option<Value>) returns (r: Option<Value>)
    ensures r.None? <==> !(path.Some? && path.value.Str? && path.value.s != "")
    ensures r.Some? ==> r.value == Lookup(host, value, Split(path.value.s))
  {
    if path.None? || !path.value.Str? || path.value.s == "" {
      return None;
    }
    var segments := Split(path.value.s);
    var current := value;
    assert segments[0..] == segments;
    for k := 0 to |segments|
      invariant Lookup(host, current, segments[k..]) == Lookup(host, value, segments)
    {
      assert segments[k..][1..] == segments[k + 1..];
      if current.Obj? && segments[k] in current.fields {
        current := current.fields[segments[k]];
      } else if current.List? {
        match host.toIndex(segments[k]) {
          case None => return Some(Missing);
          case Some(index) =>
            if index < 0 || index >= |current.items| {
              return Some(Missing);
            }
            current := current.items[index];
        }
      } else {
        return Some(Missing);
      }
    }
    r := Some(current);
  }

  lemma SuffixIsUnique(path: string, a: string, b: string)
    ensures path + a == path + b <==> a == b
  {
    assert (path + a)[|path|..] == a && (path + b)[|path|..] == b;
  }

  lemma PathsDiffer(path: string, at: string)
    ensures path + "" == path
    ensures forall other :: path + at == path + other <==> at == other
  {
    forall other { SuffixIsUnique(path, at, other); }
  }

  /** A one-letter path names a top-level field. */
  lemma ReadField(host: Host, record: map<string, Value>, c: char)
    requires c != '.' && [c] in record
    ensures Extract(host, record, [c]) == record[[c]]
  {
    assert [c][1..] == "" && Split("") == [""] && [c] + "" == [c];
    assert Split([c]) == [[c]] && [[c]][1..] == [];
    assert Lookup(host, Obj(record), [[c]]) == Lookup(host, record[[c]], []);
  }

  lemma {:induction false} LookupAppend(host: Host, v: Value, p: seq<string>, q: seq<string>)
    ensures Lookup(host, v, p + q) == Lookup(host, Lookup(host, v, p), q)
  {
    if p == [] {
      assert p + q == q;
    } else {
      assert (p + q)[1..] == p[1..] + q;
      match v {
        case Obj(fields) =>
          if p[0] in fields { LookupAppend(host, fields[p[0]], p[1..], q); }
        case List(items) =>
          if host.toIndex(p[0]).Some? && 0 <= host.toIndex(p[0]).value < |items| {
            LookupAppend(host, items[host.toIndex(p[0]).value], p[1..], q);
          }
        case _ =>
      }
    }
  }

  /** Reading deeper from the record agrees with `get_path` on the value read:
      the two readers follow the same rules. */
  lemma ExtractDeeper(host: Host, record: map<string, Value>, path: string, rest: string)
    requires path != ""
    ensures Extract(host, record, path + "." + rest)
      == Lookup(host, Extract(host, record, path), Split(rest))
  {
    SplitJoined(path, rest);
    LookupAppend(host, Obj(record), Split(path), Split(rest));
  }
}
