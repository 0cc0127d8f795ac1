/** An option string that begins with "+" or "-" (lib/getopt.c): _getopt_initialize
    strips that character, but only from the copy that the first call works with.  This
    module says when a scan differs from one that strips it in every call. */
module GetoptPrefix {
  import opened Common
  import opened Getopt

  /** Looking an option character up in the string as given leads to another report. */
  predicate Stale(o: Options, chars: string, following: seq<string>)
    requires chars != ""
  {
    ShortStep(o.optstring, chars, following) != ShortStep(o.Stripped(), chars, following)
  }

  /** One of the option characters is looked up so after the first report. */
  predicate ClusterStale(o: Options, first: bool, chars: string, following: seq<string>)
    requires chars != ""
    decreases |chars|
  {
    || (!first && Stale(o, chars, following))
    || (ShortStep(o.Stripped(), chars, following).More? && ClusterStale(o, false, chars[1..], following))
  }

  /** The scan comes across such an option character; `first` until there was a report. */
  predicate ScanStale(o: Options, first: bool, args: seq<string>)
    decreases |args|
  {
    if args == [] then false
    else if NonOption(args[0]) then
      match o.Order()
      case RequireOrder => false
      case ReturnInOrder => ScanStale(o, false, args[1..])
      case Permute => ScanStale(o, first, args[1..])
    else if args[0] == "--" then false
    else if IsLong(o, args[0]) then
      ScanStale(o, false, args[1 + LongElement(o, args[0], args[1..]).1..])
    else
      || ClusterStale(o, first, args[0][1..], args[1..])
      || ScanStale(o, false, args[1 + Cluster(o.Intended(), args[0][1..], args[1..]).1..])
  }

  function Actual(o: Options, first: bool): Tables {
    if first then o.First() else o.Later()
  }

  // ---------- reports that differ ----------

  /** The two runs of reports differ at some place, whatever comes after them. */
  ghost predicate Diverge(a: seq<Item>, b: seq<Item>) {
    exists i :: 0 <= i < |a| && i < |b| && a[i] != b[i]
  }

  lemma DivergeAppend(x: seq<Item>, y: seq<Item>, a: seq<Item>, b: seq<Item>)
    requires Diverge(x, y)
    ensures Diverge(x + a, y + b)
  {
    var i :| 0 <= i < |x| && i < |y| && x[i] != y[i];
    assert (x + a)[i] == x[i] && (y + b)[i] == y[i];
  }

  lemma DivergeBehind(x: seq<Item>, a: seq<Item>, b: seq<Item>)
    requires Diverge(a, b)
    ensures Diverge(x + a, x + b)
  {
    var i :| 0 <= i < |a| && i < |b| && a[i] != b[i];
    assert (x + a)[|x| + i] == a[i] && (x + b)[|x| + i] == b[i];
  }

  /** Steps that differ report different items. */
  lemma StepsReport(s: string, t: string, chars: string, following: seq<string>)
    requires chars != "" && ShortStep(s, chars, following) != ShortStep(t, chars, following)
    ensures ShortStep(s, chars, following).item != ShortStep(t, chars, following).item
  {
    hide ShortKind;
  }

  lemma {:induction false} ClusterStaleIff(o: Options, first: bool, chars: string, following: seq<string>)
    requires chars != ""
    ensures var a, b := Cluster(Actual(o, first), chars, following), Cluster(o.Intended(), chars, following);
            if ClusterStale(o, first, chars, following) then Diverge(a.0, b.0) else a == b
    decreases |chars|
  {
    var t, u := Actual(o, first), o.Intended();
    ClusterUnfolds(t, chars, following);
    ClusterUnfolds(u, chars, following);
    var x, y := ShortStep(t.now, chars, following), ShortStep(u.now, chars, following);
    var a, b := Cluster(t, chars, following), Cluster(u, chars, following);
    hide ShortStep, Cluster, Diverge;
    if x != y {
      StepsReport(t.now, u.now, chars, following);
      HeadsDiverge(a.0, b.0);
    } else if x.More? {
      ClusterStaleIff(o, false, chars[1..], following);
      var c, d := Cluster(o.Later(), chars[1..], following), Cluster(u, chars[1..], following);
      if ClusterStale(o, false, chars[1..], following) {
        DivergeBehind([x.item], c.0, d.0);
      }
    }
  }

  lemma HeadsDiverge(a: seq<Item>, b: seq<Item>)
    requires a != [] && b != [] && a[0] != b[0]
    ensures Diverge(a, b)
  {
  }

  lemma DivergeDiffers(a: seq<Item>, b: seq<Item>)
    requires Diverge(a, b)
    ensures a != b
  {
  }

  // ---------- whole scans ----------

  lemma AfterSame(o: Options, t: Tables, u: Tables, items: seq<Item>, extra: nat, args: seq<string>)
    requires 1 + extra <= |args|
    requires Diverge(Parse(o, t.Next(), args[1 + extra..]).items, Parse(o, u.Next(), args[1 + extra..]).items)
          || Parse(o, t.Next(), args[1 + extra..]) == Parse(o, u.Next(), args[1 + extra..])
    ensures if Parse(o, t.Next(), args[1 + extra..]) == Parse(o, u.Next(), args[1 + extra..])
            then After(o, t, items, extra, args) == After(o, u, items, extra, args)
            else Diverge(After(o, t, items, extra, args).items, After(o, u, items, extra, args).items)
  {
    AfterIs(o, t, items, extra, args);
    AfterIs(o, u, items, extra, args);
    var p, q := Parse(o, t.Next(), args[1 + extra..]), Parse(o, u.Next(), args[1 + extra..]);
    hide Parse, After, Diverge;
    if p != q {
      DivergeBehind(items, p.items, q.items);
    }
  }

  lemma ScanStaleFront(o: Options, first: bool, args: seq<string>)
    requires args != [] && (NonOption(args[0]) || args[0] == "--")
    ensures ScanStale(o, first, args) ==
            if NonOption(args[0]) then
              match o.Order()
              case RequireOrder => false
              case ReturnInOrder => ScanStale(o, false, args[1..])
              case Permute => ScanStale(o, first, args[1..])
            else false
  {
    hide NonOption;
  }

  lemma ScanStaleAtLong(o: Options, first: bool, args: seq<string>)
    requires args != [] && !NonOption(args[0]) && args[0] != "--" && IsLong(o, args[0])
    ensures ScanStale(o, first, args) == ScanStale(o, false, args[1 + LongElement(o, args[0], args[1..]).1..])
  {
    hide NonOption, IsLong, LongElement, ClusterStale, Cluster;
  }

  lemma ScanStaleAtShort(o: Options, first: bool, args: seq<string>)
    requires args != [] && !NonOption(args[0]) && args[0] != "--" && !IsLong(o, args[0])
    ensures ScanStale(o, first, args) <==>
            || ClusterStale(o, first, args[0][1..], args[1..])
            || ScanStale(o, false, args[1 + Cluster(o.Intended(), args[0][1..], args[1..]).1..])
  {
    hide NonOption, IsLong, LongElement, ClusterStale, Cluster;
  }

  lemma ParseFront(o: Options, t: Tables, args: seq<string>)
    requires args != [] && (NonOption(args[0]) || args[0] == "--")
    ensures Parse(o, t, args) ==
            if NonOption(args[0]) then
              match o.Order()
              case RequireOrder => Parsed([], [], args)
              case ReturnInOrder => After(o, t, [Operand(args[0])], 0, args)
              case Permute =>
                var p := Parse(o, t, args[1..]);
                p.(operands := [args[0]] + p.operands)
            else Parsed([], [args[0]], args[1..])
  {
    hide NonOption, After;
  }

  lemma {:induction false} ScanStaleFrom(o: Options, first: bool, args: seq<string>)
    ensures var p, q := Parse(o, Actual(o, first), args), Parse(o, o.Intended(), args);
            if ScanStale(o, first, args) then Diverge(p.items, q.items) else p == q
    decreases |args|, 2
  {
    hide Diverge, Parse, ScanStale, NonOption, IsLong, Actual, Options.Intended;
    if args == [] {
      ScanOfNothing(o, Actual(o, first), first);
      ScanOfNothing(o, o.Intended(), first);
    } else if NonOption(args[0]) || args[0] == "--" {
      ScanStaleAtFront(o, first, args);
    } else if IsLong(o, args[0]) {
      ScanStaleLong(o, first, args);
    } else {
      ScanStaleShort(o, first, args);
    }
  }

  lemma ScanOfNothing(o: Options, t: Tables, first: bool)
    ensures !ScanStale(o, first, []) && Parse(o, t, []) == Parsed([], [], [])
  {
  }

  lemma {:induction false} ScanStaleAtFront(o: Options, first: bool, args: seq<string>)
    requires args != [] && (NonOption(args[0]) || args[0] == "--")
    ensures var p, q := Parse(o, Actual(o, first), args), Parse(o, o.Intended(), args);
            if ScanStale(o, first, args) then Diverge(p.items, q.items) else p == q
    decreases |args|, 1
  {
    var t, u := Actual(o, first), o.Intended();
    assert t.Next() == Actual(o, false);
    hide Diverge, Parse, ScanStale, NonOption, After;
    ScanStaleFront(o, first, args);
    ParseFront(o, t, args);
    ParseFront(o, u, args);
    if NonOption(args[0]) {
      match o.Order()
      case RequireOrder =>
      case ReturnInOrder =>
        ScanStaleNext(o, t, u, [Operand(args[0])], 0, args);
      case Permute =>
        ScanStaleFrom(o, first, args[1..]);
    }
  }

  lemma ParseLong(o: Options, t: Tables, args: seq<string>)
    requires args != [] && !NonOption(args[0]) && args[0] != "--" && IsLong(o, args[0])
    ensures var (items, extra) := LongElement(o, args[0], args[1..]);
            Parse(o, t, args) == After(o, t, items, extra, args)
  {
    ParseElement(o, t, args);
    hide Parse, After, LongElement;
  }

  lemma {:induction false} ScanStaleLong(o: Options, first: bool, args: seq<string>)
    requires args != [] && !NonOption(args[0]) && args[0] != "--" && IsLong(o, args[0])
    ensures var p, q := Parse(o, Actual(o, first), args), Parse(o, o.Intended(), args);
            if ScanStale(o, first, args) then Diverge(p.items, q.items) else p == q
    decreases |args|, 1
  {
    var t, u := Actual(o, first), o.Intended();
    hide *;
    ScanStaleAtLong(o, first, args);
    ParseLong(o, t, args);
    ParseLong(o, u, args);
    var r := LongElement(o, args[0], args[1..]);
    AfterElement(o, first, r, r, args, false);
  }

  lemma ParseShort(o: Options, t: Tables, args: seq<string>)
    requires args != [] && !NonOption(args[0]) && args[0] != "--" && !IsLong(o, args[0])
    ensures var (items, extra) := Cluster(t, args[0][1..], args[1..]);
            Parse(o, t, args) == After(o, t, items, extra, args)
  {
    ParseElement(o, t, args);
    hide Parse, After, Cluster;
  }

  lemma AfterDiverges(o: Options, t: Tables, u: Tables, a: (seq<Item>, nat), b: (seq<Item>, nat), args: seq<string>)
    requires 1 + a.1 <= |args| && 1 + b.1 <= |args| && Diverge(a.0, b.0)
    ensures Diverge(After(o, t, a.0, a.1, args).items, After(o, u, b.0, b.1, args).items)
  {
    AfterIs(o, t, a.0, a.1, args);
    AfterIs(o, u, b.0, b.1, args);
    hide Parse, After, Diverge;
    DivergeAppend(a.0, b.0, Parse(o, t.Next(), args[1 + a.1..]).items, Parse(o, u.Next(), args[1 + b.1..]).items);
  }

  lemma {:induction false} ScanStaleShort(o: Options, first: bool, args: seq<string>)
    requires args != [] && !NonOption(args[0]) && args[0] != "--" && !IsLong(o, args[0])
    ensures var p, q := Parse(o, Actual(o, first), args), Parse(o, o.Intended(), args);
            if ScanStale(o, first, args) then Diverge(p.items, q.items) else p == q
    decreases |args|, 1
  {
    var t, u, chars, following := Actual(o, first), o.Intended(), args[0][1..], args[1..];
    assert chars != "";
    hide *;
    ScanStaleAtShort(o, first, args);
    ParseShort(o, t, args);
    ParseShort(o, u, args);
    ClusterStaleIff(o, first, chars, following);
    AfterElement(o, first, Cluster(t, chars, following), Cluster(u, chars, following), args,
                 ClusterStale(o, first, chars, following));
  }

  lemma {:induction false} AfterElement(o: Options, first: bool, a: (seq<Item>, nat), b: (seq<Item>, nat),
                                        args: seq<string>, stale: bool)
    requires 1 + a.1 <= |args| && 1 + b.1 <= |args| && if stale then Diverge(a.0, b.0) else a == b
    ensures var p, q := After(o, Actual(o, first), a.0, a.1, args), After(o, o.Intended(), b.0, b.1, args);
            if stale || ScanStale(o, false, args[1 + b.1..]) then Diverge(p.items, q.items) else p == q
    decreases |args|, 0, 1
  {
    var t, u := Actual(o, first), o.Intended();
    hide Parse, After, ScanStale, Diverge;
    if stale {
      AfterDiverges(o, t, u, a, b, args);
    } else {
      ScanStaleNext(o, t, u, b.0, b.1, args);
    }
  }

  /** The rest of the scan after a report. */
  lemma {:induction false} ScanStaleNext(o: Options, t: Tables, u: Tables, items: seq<Item>, extra: nat,
                                         args: seq<string>)
    requires 1 + extra <= |args| && t.Next() == Actual(o, false) && u == o.Intended()
    ensures var p, q := After(o, t, items, extra, args), After(o, u, items, extra, args);
            if ScanStale(o, false, args[1 + extra..]) then Diverge(p.items, q.items) else p == q
    decreases |args|, 0, 0
  {
    hide Parse, After, Diverge, ScanStale;
    ScanStaleFrom(o, false, args[1 + extra..]);
    var p, q := Parse(o, t.Next(), args[1 + extra..]).items, Parse(o, u.Next(), args[1 + extra..]).items;
    if ScanStale(o, false, args[1 + extra..]) {
      DivergeDiffers(p, q);
    }
    AfterSame(o, t, u, items, extra, args);
  }

  /** The scan reports what it would with the prefix stripped in every call, and leaves
      the same arguments, exactly when it never comes across an option character that is
      looked up differently; else the reports differ. */
  lemma ScanStaleIff(o: Options, args: seq<string>)
    ensures Parse(o, o.First(), args).items == Parse(o, o.Intended(), args).items <==> !ScanStale(o, true, args)
    ensures Parse(o, o.First(), args) == Parse(o, o.Intended(), args) <==> !ScanStale(o, true, args)
  {
    ScanStaleFrom(o, true, args);
    hide Parse, ScanStale;
    if ScanStale(o, true, args) {
      DivergeDiffers(Parse(o, o.First(), args).items, Parse(o, o.Intended(), args).items);
    }
  }

  // ---------- which option characters those are ----------

  lemma IndexBehind(s: string, c: char)
    requires s != "" && s[0] != c
    ensures IndexOf(s, c) == 1 + IndexOf(s[1..], c)
  {
  }

  /** Two ways to declare an option character that come to the same, given whether more
      characters follow in the element. */
  predicate Alike(a: Option<HasArg>, b: Option<HasArg>, more: bool) {
    && (a.None? <==> b.None?)
    && if more then (a == Some(NoArgument) <==> b == Some(NoArgument))
       else (a == Some(RequiredArgument) <==> b == Some(RequiredArgument))
  }

  lemma StepsDifferIff(s: string, t: string, chars: string, following: seq<string>)
    requires chars != ""
    ensures ShortStep(s, chars, following) == ShortStep(t, chars, following)
       <==> Alike(ShortKind(s, chars[0]), ShortKind(t, chars[0]), |chars| > 1)
  {
    hide ShortKind;
  }

  /** They are the prefix itself, unless the rest of the string declares it too, and so
      that it comes to the same. */
  lemma StaleIff(o: Options, chars: string, following: seq<string>)
    requires chars != ""
    ensures Stale(o, chars, following) <==>
            && o.HasPrefix() && chars[0] == o.optstring[0]
            && !Alike(ShortKind(o.optstring, chars[0]), ShortKind(o.Stripped(), chars[0]), |chars| > 1)
    ensures o.HasPrefix() && o.optstring[0] !in o.Stripped() ==>
              (Stale(o, chars, following) <==> chars[0] == o.optstring[0])
  {
    var c := chars[0];
    if o.HasPrefix() {
      if c == o.optstring[0] {
        assert ShortKind(o.optstring, c) != None;
        assert c !in o.Stripped() ==> ShortKind(o.Stripped(), c) == None;
      } else {
        IndexBehind(o.optstring, c);
        assert ShortKind(o.optstring, c) == ShortKind(o.Stripped(), c);
      }
    }
    hide ShortKind, ShortStep;
    StepsDifferIff(o.optstring, o.Stripped(), chars, following);
  }

  /** A missing argument is reported with "?" instead of ":" after the first call when
      the prefix hides a colon. */
  lemma MissingStaleIff(o: Options)
    ensures Missing(o.Later().now) != Missing(o.Intended().now)
       <==> o.HasPrefix() && |o.optstring| > 1 && o.optstring[1] == ':'
  {
  }

  lemma StepsOfExample(following: seq<string>)
    ensures ShortStep("a", "a+", following) == More(Short('a', None))
    ensures ShortStep("+a", "+", following) == Last(Short('+', None), 0)
    ensures ShortStep("a", "+", following) == Last(BadOption('+'), 0)
  {
    assert IndexOf("+a", '+') == 0 && IndexOf("a", 'a') == 0 && IndexOf("a", '+') == 1;
    assert "a+"[1..] == "+" && "+"[1..] == "";
  }

  lemma ClusterOfExample(t: Tables, following: seq<string>)
    requires t.now == "a"
    ensures t.later == "+a" ==> Cluster(t, "a+", following) == ([Short('a', None), Short('+', None)], 0)
    ensures t.later == "a" ==> Cluster(t, "a+", following) == ([Short('a', None), BadOption('+')], 0)
  {
    StepsOfExample(following);
    ClusterUnfolds(t, "a+", following);
    ClusterUnfolds(t.Next(), "+", following);
    assert "a+"[1..] == "+";
    hide ShortStep, Cluster;
    assert [Short('a', None)] + [Short('+', None)] == [Short('a', None), Short('+', None)];
    assert [Short('a', None)] + [BadOption('+')] == [Short('a', None), BadOption('+')];
  }

  /** With "+a" the element "-a+" is two options, where it should be one and an error. */
  lemma PrefixTaken()
    ensures var o, args := Options("+a", None, false), ["-a+"];
            && Parse(o, o.First(), args) == Parsed([Short('a', None), Short('+', None)], args, [])
            && Parse(o, o.Intended(), args) == Parsed([Short('a', None), BadOption('+')], args, [])
  {
    var o, args := Options("+a", None, false), ["-a+"];
    var none: seq<string> := [];
    assert args[0][1..] == "a+" && args[1..] == none && o.Stripped() == "a";
    ClusterOfExample(o.First(), none);
    ClusterOfExample(o.Intended(), none);
    ParseElement(o, o.First(), args);
    ParseElement(o, o.Intended(), args);
    assert Parse(o, o.Later(), none) == Parse(o, o.Intended(), none) == Parsed([], [], []);
    hide Parse, Cluster;
    AfterIs(o, o.First(), [Short('a', None), Short('+', None)], 0, args);
    AfterIs(o, o.Intended(), [Short('a', None), BadOption('+')], 0, args);
    assert args[..1] + none == args;
  }
}
