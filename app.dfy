/** The events page: the filter record becomes a list of query parameters, the
    parameters become the query string of the events request, and the first
    few events become cards under the map.

    Two library calls are not modelled and appear as function parameters:
    `toIso` stands for `new Date(x).toISOString()` (only its values on
    non-empty strings are used, as the page converts a date only when the
    field is set), and `encode` for the byte
    percent-encoder of the application/x-www-form-urlencoded serializer
    (section 5.2 of the WHATWG URL Standard). */
module App {
  import opened Sequences
  import opened Filters

  datatype Option<T> = None | Some(value: T)

  /** One event as the server sends it. */
  datatype Event = Event(id: string, title: string, description: string, category: string,
                         city: Option<string>, country: Option<string>, startDate: Option<string>,
                         longitude: real, latitude: real)

  /** The page's filter state before the form first reports: nothing set. */
  const InitialFilters: FilterRecord := FilterRecord("", "", [], "")

  // ---------------------------------------------------------------------------
  // Comma-joined lists

  /** Array.prototype.join with a one-character separator. */
  function Join(xs: seq<string>, sep: char): (s: string)
    ensures xs == [] ==> s == ""
    ensures xs != [] ==> xs[0] <= s
  {
    if xs == [] then ""
    else if |xs| == 1 then xs[0]
    else xs[0] + [sep] + Join(xs[1..], sep)
  }

  /** String.prototype.split with a one-character separator: the pieces
      between separators, the empty string giving one empty piece. */
  function Split(s: string, sep: char): (parts: seq<string>)
    ensures |parts| >= 1
    ensures forall p :: p in parts ==> sep !in p
    decreases |s|
  {
    if s == [] then [""]
    else
      var rest := Split(s[1..], sep);
      if s[0] == sep then [""] + rest
      else [[s[0]] + rest[0]] + rest[1..]
  }

  /** Splitting after a separator-free prefix glues the prefix onto the first piece. */
  lemma {:induction false} SplitPrefix(a: string, t: string, sep: char)
    requires sep !in a
    ensures Split(a + t, sep) == [a + Split(t, sep)[0]] + Split(t, sep)[1..]
    decreases |a|
  {
    var parts := Split(t, sep);
    if a != [] {
      assert (a + t)[0] == a[0] && (a + t)[1..] == a[1..] + t;
      SplitPrefix(a[1..], t, sep);
      assert a == [a[0]] + a[1..];
      assert [a[0]] + (a[1..] + parts[0]) == a + parts[0];
    } else {
      assert a + t == t;
      assert a + parts[0] == parts[0];
      assert parts == [parts[0]] + parts[1..];
    }
  }

  /** Joining then splitting gives the list back when no element holds the separator. */
  lemma {:induction false} SplitJoin(xs: seq<string>, sep: char)
    requires xs != []
    requires forall x :: x in xs ==> sep !in x
    ensures Split(Join(xs, sep), sep) == xs
    decreases |xs|
  {
    if |xs| == 1 {
      SplitPrefix(xs[0], [], sep);
      assert xs[0] + [] == xs[0];
      assert Split([], sep) == [""];
      assert xs[0] + "" == xs[0];
    } else {
      var t := Join(xs[1..], sep);
      SplitJoin(xs[1..], sep);
      assert Join(xs, sep) == xs[0] + ([sep] + t);
      SplitPrefix(xs[0], [sep] + t, sep);
      assert ([sep] + t)[0] == sep && ([sep] + t)[1..] == t;
      assert Split([sep] + t, sep) == [""] + xs[1..];
      assert xs[0] + "" == xs[0];
      assert xs == [xs[0]] + xs[1..];
    }
  }

  /** Prepending to the first element prepends to the joined string. */
  lemma JoinExtendHead(c: string, xs: seq<string>, sep: char)
    requires xs != []
    ensures Join([c + xs[0]] + xs[1..], sep) == c + Join(xs, sep)
  {
    var ys := [c + xs[0]] + xs[1..];
    assert ys[0] == c + xs[0] && ys[1..] == xs[1..];
    if |xs| > 1 {
      assert Join(ys, sep) == (c + xs[0]) + [sep] + Join(xs[1..], sep);
    }
  }

  /** Splitting then joining gives the string back. */
  lemma {:induction false} JoinSplit(s: string, sep: char)
    ensures Join(Split(s, sep), sep) == s
    decreases |s|
  {
    if s != [] {
      var rest := Split(s[1..], sep);
      JoinSplit(s[1..], sep);
      assert s == [s[0]] + s[1..];
      if s[0] == sep {
        assert Split(s, sep) == [""] + rest;
        assert ([""] + rest)[0] == "" && ([""] + rest)[1..] == rest;
        assert Join([""] + rest, sep) == "" + [sep] + Join(rest, sep);
      } else {
        assert Split(s, sep) == [[s[0]] + rest[0]] + rest[1..];
        JoinExtendHead([s[0]], rest, sep);
      }
    }
  }

  // ---------------------------------------------------------------------------
  // URLSearchParams: an ordered list of name/value pairs

  /** One name/value pair of a URLSearchParams list. */
  datatype Param = Param(name: string, value: string)

  /** The names of the pairs, in order. */
  function Names(ps: seq<Param>): (names: seq<string>)
    ensures |names| == |ps|
    ensures forall i :: 0 <= i < |ps| ==> names[i] == ps[i].name
  {
    if ps == [] then [] else [ps[0].name] + Names(ps[1..])
  }

  /** URLSearchParams.get: the value of the first pair named `name`. */
  function Lookup(ps: seq<Param>, name: string): (v: Option<string>)
    ensures v.None? <==> name !in Names(ps)
    ensures v.Some? ==> Param(name, v.value) in ps
  {
    if ps == [] then None
    else if ps[0].name == name then Some(ps[0].value)
    else Lookup(ps[1..], name)
  }

  /** The pairs not named `name`, in their original order. */
  function Without(ps: seq<Param>, name: string): (r: seq<Param>)
    ensures name !in Names(r)
    ensures forall p :: p in r <==> p in ps && p.name != name
  {
    if ps == [] then []
    else if ps[0].name == name then Without(ps[1..], name)
    else [ps[0]] + Without(ps[1..], name)
  }

  /** Dropping a name that is not there changes nothing. */
  lemma {:induction false} WithoutAbsent(ps: seq<Param>, name: string)
    requires name !in Names(ps)
    ensures Without(ps, name) == ps
  {
    if ps != [] {
      assert Names(ps) == [ps[0].name] + Names(ps[1..]);
      WithoutAbsent(ps[1..], name);
      assert ps == [ps[0]] + ps[1..];
    }
  }

  /** URLSearchParams.set, as section 6.2 of the WHATWG URL Standard defines
      it: the first pair named `name` takes `value` and later pairs with that
      name are removed; with no such pair, the pair is appended. */
  function SetParam(ps: seq<Param>, name: string, value: string): (r: seq<Param>)
    ensures Param(name, value) in r
    ensures forall p :: p in r ==> p in ps || p == Param(name, value)
  {
    if ps == [] then [Param(name, value)]
    else if ps[0].name == name then [Param(name, value)] + Without(ps[1..], name)
    else [ps[0]] + SetParam(ps[1..], name, value)
  }

  /** After a set, exactly one pair carries `name`, with `value`, and the
      pairs with other names are untouched and in the same order. */
  lemma {:induction false} SetParamSpec(ps: seq<Param>, name: string, value: string)
    ensures Lookup(SetParam(ps, name, value), name) == Some(value)
    ensures multiset(Names(SetParam(ps, name, value)))[name] == 1
    ensures Without(SetParam(ps, name, value), name) == Without(ps, name)
  {
    var r := SetParam(ps, name, value);
    if ps == [] {
      assert Names(r) == [name];
    } else if ps[0].name == name {
      var rest := Without(ps[1..], name);
      assert r[0] == Param(name, value) && r[1..] == rest;
      assert Names(r) == [name] + Names(rest);
      assert multiset(Names(rest))[name] == 0;
      WithoutAbsent(rest, name);
    } else {
      var rest := SetParam(ps[1..], name, value);
      SetParamSpec(ps[1..], name, value);
      assert r[0] == ps[0] && r[1..] == rest;
      assert Names(r) == [ps[0].name] + Names(rest);
    }
  }

  /** Setting a name no pair carries yet appends one pair at the end. */
  lemma {:induction false} SetParamFresh(ps: seq<Param>, name: string, value: string)
    requires forall p :: p in ps ==> p.name != name
    ensures SetParam(ps, name, value) == ps + [Param(name, value)]
  {
    if ps != [] {
      assert ps[0] in ps;
      assert forall p :: p in ps[1..] ==> p in ps;
      SetParamFresh(ps[1..], name, value);
      assert ps == [ps[0]] + ps[1..];
    }
  }

  /** `set` on a list whose first pair carries the name replaces that pair. */
  lemma SetParamAtHead(previous: string, after: seq<Param>, name: string, value: string)
    ensures SetParam([Param(name, previous)] + after, name, value)
            == [Param(name, value)] + Without(after, name)
  {
    var ps := [Param(name, previous)] + after;
    assert ps[0].name == name && ps[1..] == after;
  }

  /** `set` passes over a leading pair with another name. */
  lemma SetParamSkip(q: Param, ps: seq<Param>, name: string, value: string)
    requires q.name != name
    ensures SetParam([q] + ps, name, value) == [q] + SetParam(ps, name, value)
  {
    assert ([q] + ps)[0] == q && ([q] + ps)[1..] == ps;
  }

  /** When `name` is already present, the new pair takes the slot of the
      first pair with that name: the pairs before it are untouched and the
      later pairs lose only those named `name`. */
  lemma {:induction false} SetParamInPlace(before: seq<Param>, previous: string, after: seq<Param>,
                                           name: string, value: string)
    requires name !in Names(before)
    ensures SetParam(before + ([Param(name, previous)] + after), name, value)
            == before + ([Param(name, value)] + Without(after, name))
    decreases |before|
  {
    var rest := [Param(name, previous)] + after;
    var result := [Param(name, value)] + Without(after, name);
    if before == [] {
      EmptyConcat(before, rest);
      EmptyConcat(before, result);
      SetParamAtHead(previous, after, name, value);
    } else {
      var b0, bt := before[0], before[1..];
      ConsConcat(before, rest);
      ConsConcat(before, result);
      assert Names(before) == [b0.name] + Names(bt);
      SetParamSkip(b0, bt + rest, name, value);
      SetParamInPlace(bt, previous, after, name, value);
    }
  }

  lemma {:induction false} NamesAppend(a: seq<Param>, b: seq<Param>)
    ensures Names(a + b) == Names(a) + Names(b)
  {
    assert |Names(a + b)| == |Names(a) + Names(b)|;
    forall i | 0 <= i < |a + b| ensures Names(a + b)[i] == (Names(a) + Names(b))[i] {
      if i >= |a| {
        assert (a + b)[i] == b[i - |a|];
      }
    }
  }

  /** A lookup in `a + b` answers from `a` when `a` has the name, else from `b`. */
  lemma {:induction false} LookupAppend(a: seq<Param>, b: seq<Param>, name: string)
    ensures Lookup(a + b, name) == if name in Names(a) then Lookup(a, name) else Lookup(b, name)
    decreases |a|
  {
    if a == [] {
      assert a + b == b;
    } else {
      assert (a + b)[0] == a[0] && (a + b)[1..] == a[1..] + b;
      LookupAppend(a[1..], b, name);
      assert Names(a) == [a[0].name] + Names(a[1..]);
    }
  }

  lemma {:induction false} WithoutAppend(a: seq<Param>, b: seq<Param>, name: string)
    ensures Without(a + b, name) == Without(a, name) + Without(b, name)
    decreases |a|
  {
    if a == [] {
      assert a + b == b;
    } else {
      assert (a + b)[0] == a[0] && (a + b)[1..] == a[1..] + b;
      WithoutAppend(a[1..], b, name);
    }
  }

  // ---------------------------------------------------------------------------
  // Filter record to query parameters

  /** The parameters the page sends for filter record `f`: each of start, end,
      types and q only when its field is set (a non-empty string, a non-empty
      list), in that order; dates go through `toIso`, the category keys are
      comma-joined, the search text is sent as typed. */
  function QueryParams(f: FilterRecord, toIso: string -> string): (params: seq<Param>)
    ensures |params| <= 4
  {
    OneIf(f.start != "", Param("start", toIso(f.start)))
    + (OneIf(f.end != "", Param("end", toIso(f.end)))
       + (OneIf(|f.types| > 0, Param("types", Join(f.types, ',')))
          + OneIf(f.q != "", Param("q", f.q))))
  }

  /** The names of an optional pair. */
  lemma NamesOneIf(present: bool, p: Param)
    ensures Names(OneIf(present, p)) == OneIf(present, p.name)
  {
  }

  /** The parameter names, in the only order the page ever sends them. */
  const ParamOrder: seq<string> := ["start", "end", "types", "q"]

  lemma ParamOrderDistinct()
    ensures NoDuplicates(ParamOrder)
  {
  }

  /** The names of the query parameters: each of start, end, types, q when
      its field is set. */
  lemma QueryNames(f: FilterRecord, toIso: string -> string)
    ensures Names(QueryParams(f, toIso))
            == OneIf(f.start != "", "start") + (OneIf(f.end != "", "end")
               + (OneIf(|f.types| > 0, "types") + OneIf(f.q != "", "q")))
  {
    var a := OneIf(f.start != "", Param("start", toIso(f.start)));
    var b := OneIf(f.end != "", Param("end", toIso(f.end)));
    var c := OneIf(|f.types| > 0, Param("types", Join(f.types, ',')));
    var d := OneIf(f.q != "", Param("q", f.q));
    NamesAppend(a, b + (c + d));
    NamesAppend(b, c + d);
    NamesAppend(c, d);
    NamesOneIf(f.start != "", Param("start", toIso(f.start)));
    NamesOneIf(f.end != "", Param("end", toIso(f.end)));
    NamesOneIf(|f.types| > 0, Param("types", Join(f.types, ',')));
    NamesOneIf(f.q != "", Param("q", f.q));
  }

  /** Whichever of the four names are present, they keep the fixed order and
      none repeats. */
  lemma NamesInOrder(hasStart: bool, hasEnd: bool, hasTypes: bool, hasQ: bool)
    ensures IsSubsequence(OneIf(hasStart, "start") + (OneIf(hasEnd, "end")
              + (OneIf(hasTypes, "types") + OneIf(hasQ, "q"))), ParamOrder)
    ensures NoDuplicates(OneIf(hasStart, "start") + (OneIf(hasEnd, "end")
              + (OneIf(hasTypes, "types") + OneIf(hasQ, "q"))))
  {
    var nb, nc, nd := OneIf(hasEnd, "end"), OneIf(hasTypes, "types"), OneIf(hasQ, "q");
    OptionalOnly(hasQ, "q");
    OptionalHead(hasTypes, "types", nd, ["q"]);
    OptionalHead(hasEnd, "end", nc + nd, ["types"] + ["q"]);
    OptionalHead(hasStart, "start", nb + (nc + nd), ["end"] + (["types"] + ["q"]));
    assert ParamOrder == ["start"] + (["end"] + (["types"] + ["q"]));
    ParamOrderDistinct();
    SubsequenceNoDuplicates(OneIf(hasStart, "start") + (nb + (nc + nd)), ParamOrder);
  }

  /** Each name appears at most once, and the names present keep the fixed
      order start, end, types, q. */
  lemma QueryParamsOrder(f: FilterRecord, toIso: string -> string)
    ensures IsSubsequence(Names(QueryParams(f, toIso)), ParamOrder)
    ensures NoDuplicates(Names(QueryParams(f, toIso)))
  {
    QueryNames(f, toIso);
    NamesInOrder(f.start != "", f.end != "", |f.types| > 0, f.q != "");
  }

  /** No parameter at all exactly when no field of the filter record is set. */
  lemma QueryParamsEmpty(f: FilterRecord, toIso: string -> string)
    ensures QueryParams(f, toIso) == [] <==> f.start == "" && f.end == "" && f.types == [] && f.q == ""
  {
  }

  /** A start (end) parameter is present exactly when the start (end) date
      is set, and it carries the date converted by `toIso`. */
  lemma QueryDates(f: FilterRecord, toIso: string -> string)
    ensures Lookup(QueryParams(f, toIso), "start") == if f.start == "" then None else Some(toIso(f.start))
    ensures Lookup(QueryParams(f, toIso), "end") == if f.end == "" then None else Some(toIso(f.end))
  {
    QueryLookup(f, toIso, "start");
    QueryLookup(f, toIso, "end");
  }

  /** A types parameter is present exactly when some category is selected,
      and it carries the keys joined by ',' in selection order. */
  lemma QueryTypes(f: FilterRecord, toIso: string -> string)
    ensures Lookup(QueryParams(f, toIso), "types") == if f.types == [] then None else Some(Join(f.types, ','))
  {
    QueryLookup(f, toIso, "types");
  }

  /** A q parameter is present exactly when the search text is non-empty, and
      it carries the text unchanged (before encoding). */
  lemma QuerySearchText(f: FilterRecord, toIso: string -> string)
    ensures Lookup(QueryParams(f, toIso), "q") == if f.q == "" then None else Some(f.q)
  {
    QueryLookup(f, toIso, "q");
  }

  /** What a lookup of any name finds among the page's parameters; names
      other than the four are never present. */
  lemma {:induction false} QueryLookup(f: FilterRecord, toIso: string -> string, name: string)
    ensures Lookup(QueryParams(f, toIso), name)
            == if name == "start" && f.start != "" then Some(toIso(f.start))
               else if name == "end" && f.end != "" then Some(toIso(f.end))
               else if name == "types" && f.types != [] then Some(Join(f.types, ','))
               else if name == "q" && f.q != "" then Some(f.q)
               else None
  {
    var a := OneIf(f.start != "", Param("start", toIso(f.start)));
    var b := OneIf(f.end != "", Param("end", toIso(f.end)));
    var c := OneIf(|f.types| > 0, Param("types", Join(f.types, ',')));
    var d := OneIf(f.q != "", Param("q", f.q));
    LookupPart(a, b + (c + d), name);
    LookupPart(b, c + d, name);
    LookupPart(c, d, name);
    LookupPart(d, [], name);
    assert d + [] == d;
  }

  /** A lookup through a part of at most one pair. */
  lemma LookupPart(part: seq<Param>, rest: seq<Param>, name: string)
    requires |part| <= 1
    ensures Lookup(part + rest, name)
            == if part != [] && part[0].name == name then Some(part[0].value) else Lookup(rest, name)
  {
    if part == [] {
      assert part + rest == rest;
    } else {
      assert (part + rest)[0] == part[0] && (part + rest)[1..] == rest;
    }
  }

  // ---------------------------------------------------------------------------
  // Serialization (URLSearchParams.toString)

  /** The `name=value` pieces of the serializer, each side passed through `encode`. */
  function EncodedPieces(ps: seq<Param>, encode: string -> string): seq<string>
  {
    seq(|ps|, i requires 0 <= i < |ps| => encode(ps[i].name) + "=" + encode(ps[i].value))
  }

  /** The application/x-www-form-urlencoded serialization of `ps`: the encoded
      pieces joined by '&'. It is empty exactly when there are no pairs. */
  function Serialize(ps: seq<Param>, encode: string -> string): (query: string)
    ensures query == "" <==> ps == []
  {
    var pieces := EncodedPieces(ps, encode);
    assert ps != [] ==> '=' in pieces[0];
    Join(pieces, '&')
  }

  /** A piece read back at its first '=' into name and value. */
  function SplitPiece(piece: string): (string, string)
  {
    var parts := Split(piece, '=');
    (parts[0], Join(parts[1..], '='))
  }

  /** The serialized query read back into (encoded name, encoded value) pairs. */
  function Decompose(query: string): seq<(string, string)>
  {
    if query == "" then []
    else
      var pieces := Split(query, '&');
      seq(|pieces|, i requires 0 <= i < |pieces| => SplitPiece(pieces[i]))
  }

  /** The serializer loses nothing: since the encoder never emits '&' or '=',
      the query splits back into exactly the encoded names and values, in order. */
  lemma SerializeDecompose(ps: seq<Param>, encode: string -> string)
    requires forall s :: '&' !in encode(s) && '=' !in encode(s)
    ensures Decompose(Serialize(ps, encode))
            == seq(|ps|, i requires 0 <= i < |ps| => (encode(ps[i].name), encode(ps[i].value)))
  {
    if ps != [] {
      var pieces := EncodedPieces(ps, encode);
      forall p | p in pieces ensures '&' !in p {
        var i :| 0 <= i < |ps| && pieces[i] == p;
        assert p == encode(ps[i].name) + "=" + encode(ps[i].value);
      }
      SplitJoin(pieces, '&');
      forall i | 0 <= i < |ps|
        ensures SplitPiece(pieces[i]) == (encode(ps[i].name), encode(ps[i].value))
      {
        var n, v := encode(ps[i].name), encode(ps[i].value);
        assert pieces[i] == Join([n, v], '=');
        SplitJoin([n, v], '=');
        assert [n, v][1..] == [v];
      }
    }
  }

  // ---------------------------------------------------------------------------
  // The query-string memo

  /** One `if (field) params.set(name, value)` step of the memo, on a list
      that holds no pair named `name` yet: the pair lands at the end. */
  method SetWhen(params: seq<Param>, present: bool, name: string, value: string)
    returns (next: seq<Param>)
    requires forall p :: p in params ==> p.name != name
    ensures next == params + OneIf(present, Param(name, value))
  {
    next := params;
    if present {
      SetParamFresh(params, name, value);
      next := SetParam(params, name, value);
    }
  }

  /** The page's query-string memo: start from an empty parameter list, set
      each parameter whose field is set, and serialize. */
  method QueryString(f: FilterRecord, toIso: string -> string, encode: string -> string)
    returns (query: string)
    ensures query == Serialize(QueryParams(f, toIso), encode)
    ensures query == "" <==> f.start == "" && f.end == "" && f.types == [] && f.q == ""
  {
    var params: seq<Param> := [];
    params := SetWhen(params, f.start != "", "start", toIso(f.start));
    params := SetWhen(params, f.end != "", "end", toIso(f.end));
    params := SetWhen(params, |f.types| > 0, "types", Join(f.types, ','));
    params := SetWhen(params, f.q != "", "q", f.q);
    ghost var a := OneIf(f.start != "", Param("start", toIso(f.start)));
    ghost var b := OneIf(f.end != "", Param("end", toIso(f.end)));
    ghost var c := OneIf(|f.types| > 0, Param("types", Join(f.types, ',')));
    ghost var d := OneIf(f.q != "", Param("q", f.q));
    assert params == [] + a + b + c + d;
    assert [] + a == a;
    Reassociate(a, b, c, d);
    QueryParamsEmpty(f, toIso);
    query := Serialize(params, encode);
  }

  // ---------------------------------------------------------------------------
  // Request URL

  /** Used when no backend URL is configured. */
  const DefaultBaseUrl: string := "http://localhost:8000"

  /** The configured backend URL, unless it is missing or empty. */
  function BaseUrl(configured: Option<string>): (base: string)
    ensures configured.Some? && configured.value != "" ==> base == configured.value
    ensures configured.None? || configured.value == "" ==> base == DefaultBaseUrl
  {
    if configured.Some? && configured.value != "" then configured.value else DefaultBaseUrl
  }

  /** The events endpoint, with '?' and the query only when the query is non-empty. */
  function RequestUrl(base: string, query: string): (url: string)
    ensures base + "/api/events" <= url
    ensures |url| == |base + "/api/events"| + (if query == "" then 0 else 1 + |query|)
    ensures query == "" ==> url == base + "/api/events"
    ensures query != "" ==> url[|base + "/api/events"|] == '?' && url[|base + "/api/events"| + 1..] == query
  {
    base + "/api/events" + (if query != "" then "?" + query else "")
  }

  /** A URL read back at its first '?' into path and query. */
  function SplitUrl(url: string): (string, string)
  {
    var parts := Split(url, '?');
    (parts[0], Join(parts[1..], '?'))
  }

  /** For a base without '?', the request URL reads back into the endpoint
      path and exactly the query, and it holds a '?' only when the query is
      non-empty. */
  lemma RequestUrlSplits(base: string, query: string)
    requires '?' !in base
    ensures SplitUrl(RequestUrl(base, query)) == (base + "/api/events", query)
    ensures '?' in RequestUrl(base, query) <==> query != ""
  {
    var path := base + "/api/events";
    assert '?' !in path;
    var url := RequestUrl(base, query);
    if query == "" {
      assert url == path;
      SplitPrefix(path, [], '?');
      assert path + [] == path;
    } else {
      var t := "?" + query;
      assert url == path + t;
      SplitPrefix(path, t, '?');
      assert t[0] == '?' && t[1..] == query;
      assert Split(t, '?') == [""] + Split(query, '?');
      assert path + "" == path;
      JoinSplit(query, '?');
      assert '?' in url by {
        assert url[|path|] == '?';
      }
    }
  }

  /** The full request URL of the page for filter record `f`. */
  function EventsUrl(configured: Option<string>, f: FilterRecord,
                     toIso: string -> string, encode: string -> string): (url: string)
    ensures BaseUrl(configured) + "/api/events" <= url
    ensures var path, query := BaseUrl(configured) + "/api/events", Serialize(QueryParams(f, toIso), encode);
            (query == "" ==> url == path)
            && (query != "" ==> |url| > |path| && url[|path|] == '?' && url[|path| + 1..] == query)
  {
    RequestUrl(BaseUrl(configured), Serialize(QueryParams(f, toIso), encode))
  }

  /** The request goes to the bare endpoint exactly when no filter is set. */
  lemma EventsUrlBareIffUnfiltered(configured: Option<string>, f: FilterRecord,
                                   toIso: string -> string, encode: string -> string)
    ensures EventsUrl(configured, f, toIso, encode) == BaseUrl(configured) + "/api/events"
            <==> f.start == "" && f.end == "" && f.types == [] && f.q == ""
  {
    QueryParamsEmpty(f, toIso);
    var query := Serialize(QueryParams(f, toIso), encode);
    var path := BaseUrl(configured) + "/api/events";
    if query != "" {
      assert |EventsUrl(configured, f, toIso, encode)| > |path|;
    }
  }

  /** With nothing configured and nothing filtered, the page asks for every
      event at the default backend. */
  lemma InitialRequest(toIso: string -> string, encode: string -> string)
    ensures QueryParams(InitialFilters, toIso) == []
    ensures Serialize(QueryParams(InitialFilters, toIso), encode) == ""
    ensures EventsUrl(None, InitialFilters, toIso, encode) == "http://localhost:8000/api/events"
  {
  }

  /** The parameters for a start date and one category, no end date and no text. */
  lemma QueryExample(toIso: string -> string)
    ensures QueryParams(FilterRecord("2024-01-01", "", ["worship"], ""), toIso)
            == [Param("start", toIso("2024-01-01")), Param("types", "worship")]
  {
  }

  /** A selection built by clicking category buttons travels as a types value
      that splits back into that selection: distinct keys of the category
      table, at most eight of them. */
  lemma TypesParamFromClicks(clicks: seq<string>, start: string, end: string, q: string,
                             toIso: string -> string)
    requires forall c :: c in clicks ==> c in EventTypeKeys
    requires ApplyClicks(clicks) != []
    ensures Lookup(QueryParams(FilterRecord(start, end, ApplyClicks(clicks), q), toIso), "types").Some?
    ensures var value := Lookup(QueryParams(FilterRecord(start, end, ApplyClicks(clicks), q), toIso), "types").value;
            Split(value, ',') == ApplyClicks(clicks)
            && NoDuplicates(Split(value, ','))
            && |Split(value, ',')| <= |EventTypes|
  {
    var sel := ApplyClicks(clicks);
    QueryLookup(FilterRecord(start, end, sel, q), toIso, "types");
    ClicksStayWithinEventTypes(clicks);
    KeysHaveNoComma();
    SplitJoin(sel, ',');
  }

  /** No category key contains the ',' that separates keys in the types value. */
  lemma KeysHaveNoComma()
    ensures forall k :: k in EventTypeKeys ==> ',' !in k
  {
    forall i | 0 <= i < |EventTypes| ensures ',' !in EventTypes[i].key {
    }
  }

  // ---------------------------------------------------------------------------
  // Cards

  /** How many events get a card under the map. */
  const CardLimit: nat := 6

  /** The events shown as cards: the first six, or all of them when fewer. */
  function Cards(events: seq<Event>): (cards: seq<Event>)
    ensures |cards| == if |events| < CardLimit then |events| else CardLimit
    ensures forall i :: 0 <= i < |cards| ==> cards[i] == events[i]
  {
    if |events| < CardLimit then events else events[..CardLimit]
  }
}
