/** What option strings and command lines mean when they are written as documented
    (lib/getopt.c): every declaration is understood, and every word of a command line is
    reported as what was written. */
module GetoptGrammar {
  import opened Common
  import opened Getopt

  // ---------- arguments and names ----------

  /** An operand is what does not begin with "-", or is "-" alone. */
  lemma OperandIff(arg: string)
    ensures NonOption(arg) <==> !("-" <= arg) || arg == "-"
  {
  }

  lemma LongIff(o: Options, arg: string)
    requires !NonOption(arg)
    ensures IsLong(o, arg) <==> o.longopts.Some? && "--" <= arg
  {
  }

  /** Two long options do the same when only their names differ. */
  lemma SameEffectIff(p: LongOption, q: LongOption)
    ensures SameEffect(p, q) <==> p.(name := q.name) == q
  {
  }

  /** The name means option i: it is the first with exactly this name; or, where none is,
      the first that the name abbreviates, and all that it abbreviates do the same. */
  ghost predicate Means(long: seq<LongOption>, name: string, i: nat) {
    && i < |long|
    && if exists k :: 0 <= k < |long| && long[k].name == name
       then long[i].name == name && forall k :: 0 <= k < i ==> long[k].name != name
       else
         && name <= long[i].name
         && forall k :: 0 <= k < |long| && name <= long[k].name ==> i <= k && long[k].(name := long[i].name) == long[i]
  }

  lemma FoundIff(long: seq<LongOption>, name: string, i: nat)
    ensures MatchLong(long, name) == Found(i) <==> Means(long, name, i)
  {
    var e, f := Exact(long, name), Abbreviated(long, name);
    if e < |long| {
      assert long[e].name == name;
    } else if f < |long| {
      assert name <= long[f].name;
    }
  }

  /** Otherwise it is not recognized when it abbreviates nothing, else ambiguous. */
  lemma UnrecognizedIff(long: seq<LongOption>, name: string)
    ensures MatchLong(long, name) == Unrecognized <==> forall k :: 0 <= k < |long| ==> !(name <= long[k].name)
  {
    var e, f := Exact(long, name), Abbreviated(long, name);
    if e < |long| {
      assert name <= long[e].name;
    } else if f < |long| {
      assert name <= long[f].name;
    }
  }

  // ---------- option strings ----------

  datatype Declaration = Declaration(c: char, kind: HasArg)

  function Colons(kind: HasArg): string {
    match kind
    case NoArgument => ""
    case RequiredArgument => ":"
    case OptionalArgument => "::"
  }

  /** The option string with these declarations. */
  function Written(ds: seq<Declaration>): string {
    if ds == [] then "" else [ds[0].c] + Colons(ds[0].kind) + Written(ds[1..])
  }

  predicate Declarable(ds: seq<Declaration>) {
    && (forall i :: 0 <= i < |ds| ==> ds[i].c != ':')
    && forall i, j :: 0 <= i < j < |ds| ==> ds[i].c != ds[j].c
  }

  /** Characters before c do not matter. */
  lemma KindSkips(s: string, c: char)
    requires s != "" && s[0] != c
    ensures ShortKind(s, c) == ShortKind(s[1..], c)
  {
  }

  lemma KindSkipsColons(kind: HasArg, s: string, c: char)
    requires c != ':'
    ensures ShortKind(Colons(kind) + s, c) == ShortKind(s, c)
  {
    hide ShortKind;
    match kind
    case NoArgument =>
      assert Colons(kind) + s == s;
    case RequiredArgument =>
      KindSkips(":" + s, c);
      assert (":" + s)[1..] == s;
    case OptionalArgument =>
      KindSkips("::" + s, c);
      KindSkips(":" + s, c);
      assert ("::" + s)[1..] == ":" + s && (":" + s)[1..] == s;
  }

  lemma KindAtFront(c: char, kind: HasArg, s: string)
    requires c != ':' && (s != "" ==> s[0] != ':')
    ensures ShortKind([c] + Colons(kind) + s, c) == Some(kind)
  {
    var w := [c] + Colons(kind) + s;
    assert w[0] == c;
    match kind
    case NoArgument => assert s != "" ==> w[1] == s[0];
    case RequiredArgument => assert w[1] == ':' && (s != "" ==> w[2] == s[0]);
    case OptionalArgument => assert w[1] == ':' && w[2] == ':';
  }

  /** Every declared character has the kind it was declared with, and no other character
      is an option. */
  lemma {:induction false} Declared(ds: seq<Declaration>, c: char)
    requires Declarable(ds)
    ensures forall i :: 0 <= i < |ds| && ds[i].c == c ==> ShortKind(Written(ds), c) == Some(ds[i].kind)
    ensures (forall i :: 0 <= i < |ds| ==> ds[i].c != c) ==> ShortKind(Written(ds), c) == None
    decreases |ds|
  {
    if c == ':' || ds == [] {
      return;
    }
    var d, rest := ds[0], ds[1..];
    hide ShortKind, Written;
    Declared(rest, c);
    KindOfFront(ds, c);
    if d.c != c {
      assert forall i :: 0 < i < |ds| ==> ds[i] == rest[i - 1];
    }
  }

  lemma WrittenFront(ds: seq<Declaration>)
    requires Declarable(ds) && ds != []
    ensures Written(ds) == [ds[0].c] + Colons(ds[0].kind) + Written(ds[1..])
    ensures Written(ds[1..]) != "" ==> Written(ds[1..])[0] != ':'
  {
    hide Colons;
  }

  lemma BehindFront(c: char, s: string, t: string)
    ensures ([c] + s + t)[0] == c && ([c] + s + t)[1..] == s + t
  {
  }

  lemma KindOfFront(ds: seq<Declaration>, c: char)
    requires Declarable(ds) && ds != [] && c != ':'
    ensures ShortKind(Written(ds), c) == if ds[0].c == c then Some(ds[0].kind) else ShortKind(Written(ds[1..]), c)
  {
    var d, s, t := ds[0], Written(ds), Written(ds[1..]);
    hide *;
    WrittenFront(ds);
    if d.c == c {
      KindAtFront(c, d.kind, t);
    } else {
      KindSkips(s, c);
      BehindFront(d.c, Colons(d.kind), t);
      KindSkipsColons(d.kind, t, c);
    }
  }

  /** A leading ":" changes no kind, and "+" or "-" only its own. */
  lemma DeclaredBehind(first: char, ds: seq<Declaration>, c: char)
    requires Declarable(ds) && first in {':', '+', '-'} && (c != first || first == ':')
    ensures ShortKind([first] + Written(ds), c) == ShortKind(Written(ds), c)
  {
    if c != first {
      KindSkips([first] + Written(ds), c);
      assert ([first] + Written(ds))[1..] == Written(ds);
    }
  }

  /** What a report returns, and what it sets besides: '?' is 63 and ':' is 58. */
  lemma ReportedWith(o: Options, table: string, item: Item, before: Outside)
    requires item.Long? ==> o.longopts.Some? && item.index < |o.longopts.value|
    ensures var code, after := Code(o, table, item), Effect(o, item, before);
            match item
            case Short(c, _) => code == c as int && after == before
            case Operand(_) => code == 1 && after == before
            case BadOption(c) => code == 63 && after == Outside(c as int, before.longind, before.flags)
            case BadLong(_, n) => code == 63 && after == Outside(n, before.longind, before.flags)
            case MissingArgument(_, n) =>
              code == (if ":" <= table then 58 else 63) && after == Outside(n, before.longind, before.flags)
            case Long(i, _) =>
              var p := o.longopts.value[i];
              if p.flag == 0 then code == p.val && after == Outside(before.optopt, i, before.flags)
              else code == 0 && after == Outside(before.optopt, i, before.flags[p.flag := p.val])
  {
  }

  // ---------- command lines ----------

  /** How an option's argument is given: there is none, in the same element, in the next,
      or it should be there and is not. */
  datatype Given = Nothing | Attached(value: string) | Next(value: string) | Lacking

  /** What is meant by one or two elements: characters without arguments and one more
      option character, a long option by some name for it, an operand; or a name that is
      none, or one with an argument that the option does not take. */
  datatype Word =
    | Flags(plain: string, c: char, given: Given)
    | Name(name: string, index: nat, given: Given)
    | Other(element: string)
    | NoName(name: string, tail: string)
    | Unwanted(name: string, index: nat, value: string)

  function Value(given: Given): Option<string> {
    if given.Attached? || given.Next? then Some(given.value) else None
  }

  predicate Lacks(w: Word) {
    (w.Flags? || w.Name?) && w.given.Lacking?
  }

  /** The elements that say it. */
  function Elements(w: Word): (e: seq<string>)
    ensures 1 <= |e| <= 2
  {
    match w
    case Flags(plain, c, Attached(v)) => ["-" + plain + [c] + v]
    case Flags(plain, c, Next(v)) => ["-" + plain + [c], v]
    case Flags(plain, c, _) => ["-" + plain + [c]]
    case Name(name, _, Attached(v)) => ["--" + name + "=" + v]
    case Name(name, _, Next(v)) => ["--" + name, v]
    case Name(name, _, _) => ["--" + name]
    case Other(element) => [element]
    case NoName(name, tail) => ["--" + name + tail]
    case Unwanted(name, _, v) => ["--" + name + "=" + v]
  }

  /** An argument may be given so. */
  predicate Allowed(kind: HasArg, given: Given) {
    match given
    case Nothing => kind != RequiredArgument
    case Attached(_) => kind != NoArgument
    case Next(_) => kind == RequiredArgument
    case Lacking => kind == RequiredArgument
  }

  /** The same for a character, which may be no option. */
  predicate AllowedShort(kind: Option<HasArg>, given: Given) {
    && (if kind.None? then given.Nothing? else Allowed(kind.value, given))
    && (given.Attached? ==> given.value != "")
  }

  /** The word is what it is said to be, given the program's options. */
  ghost predicate Fits(o: Options, w: Word) {
    match w
    case Flags(plain, c, given) =>
      && c != '-' && (forall i :: 0 <= i < |plain| ==> plain[i] != '-')
      && (forall i :: 0 <= i < |plain| ==> ShortKind(o.Stripped(), plain[i]) in {None, Some(NoArgument)})
      && AllowedShort(ShortKind(o.Stripped(), c), given)
    case Name(name, i, given) =>
      && o.longopts.Some? && Means(o.longopts.value, name, i)
      && name != "" && '=' !in name && Allowed(o.longopts.value[i].hasArg, given)
    case Other(element) => NonOption(element) && o.Order() != RequireOrder
    case NoName(name, tail) =>
      && o.longopts.Some? && (forall i: nat :: !Means(o.longopts.value, name, i))
      && name != "" && '=' !in name && (tail == "" || tail[0] == '=')
    case Unwanted(name, i, _) =>
      && o.longopts.Some? && Means(o.longopts.value, name, i)
      && name != "" && '=' !in name && o.longopts.value[i].hasArg == NoArgument
  }

  function Plain(table: string, c: char): Item {
    if ShortKind(table, c).None? then BadOption(c) else Short(c, None)
  }

  function Plains(table: string, plain: string): seq<Item> {
    seq(|plain|, i requires 0 <= i < |plain| => Plain(table, plain[i]))
  }

  /** The report of the last character. */
  function Closing(table: string, c: char, given: Given): Item {
    if ShortKind(table, c).None? then BadOption(c)
    else if given.Lacking? then MissingArgument([c], c as int)
    else Short(c, Value(given))
  }

  /** What must be reported for a word. */
  function Reports(o: Options, w: Word): seq<Item>
    requires (w.Name? || w.Unwanted?) ==> o.longopts.Some? && w.index < |o.longopts.value|
  {
    match w
    case Flags(plain, c, given) => Plains(o.Stripped(), plain) + [Closing(o.Stripped(), c, given)]
    case Name(_, i, Lacking) => [MissingArgument(Elements(w)[0], o.longopts.value[i].val)]
    case Name(_, i, given) => [Long(i, Value(given))]
    case Other(element) => if o.Order() == ReturnInOrder then [Operand(element)] else []
    case NoName(_, _) => [BadLong(Elements(w)[0], 0)]
    case Unwanted(_, i, _) => [BadLong(Elements(w)[0], o.longopts.value[i].val)]
  }

  predicate IsOperand(o: Options, w: Word) {
    w.Other? && o.Order() == Permute
  }

  /** What follows the words: nothing, "--" and anything, or in REQUIRE_ORDER an operand
      and anything. */
  datatype Ending = Finished | Dashes(rest: seq<string>) | Stopped(rest: seq<string>)

  /** Only the last word may lack its argument. */
  ghost predicate LineFits(o: Options, ws: seq<Word>, end: Ending) {
    && (forall i :: 0 <= i < |ws| ==> Fits(o, ws[i]))
    && (forall i :: 0 <= i < |ws| && Lacks(ws[i]) ==> i == |ws| - 1 && end.Finished?)
    && (end.Stopped? ==> o.Order() == RequireOrder && end.rest != [] && NonOption(end.rest[0]))
  }

  function Line(ws: seq<Word>, end: Ending): seq<string> {
    if ws != [] then Elements(ws[0]) + Line(ws[1..], end)
    else match end
      case Finished => []
      case Dashes(rest) => ["--"] + rest
      case Stopped(rest) => rest
  }

  /** What must be reported, and how the elements are to be divided. */
  ghost function Meaning(o: Options, ws: seq<Word>, end: Ending): Parsed
    requires forall i :: 0 <= i < |ws| ==> Fits(o, ws[i])
  {
    if ws == [] then
      match end
      case Finished => Parsed([], [], [])
      case Dashes(rest) => Parsed([], ["--"], rest)
      case Stopped(rest) => Parsed([], [], rest)
    else
      assert Fits(o, ws[0]);
      var p := Meaning(o, ws[1..], end);
      if IsOperand(o, ws[0]) then p.(operands := Elements(ws[0]) + p.operands)
      else Parsed(Reports(o, ws[0]) + p.items, Elements(ws[0]) + p.options, p.operands)
  }

  // ---------- a cluster ----------

  /** The elements that follow hold the argument, or cannot. */
  predicate Supplies(given: Given, following: seq<string>) {
    && (given.Next? ==> following != [] && following[0] == given.value)
    && (given.Lacking? ==> following == [])
  }

  lemma StepOfPlain(table: string, chars: string, following: seq<string>)
    requires |chars| > 1 && ShortKind(table, chars[0]) in {None, Some(NoArgument)}
    ensures ShortStep(table, chars, following) == More(Plain(table, chars[0]))
  {
  }

  lemma StepOfLast(table: string, c: char, given: Given, following: seq<string>)
    requires AllowedShort(ShortKind(table, c), given) && Supplies(given, following)
    ensures var chars := [c] + if given.Attached? then given.value else "";
            ShortStep(table, chars, following) == Last(Closing(table, c, given), if given.Next? then 1 else 0)
  {
    var tail := if given.Attached? then given.value else "";
    assert ([c] + tail)[0] == c && ([c] + tail)[1..] == tail;
    hide ShortKind;
  }

  lemma PlainsNext(table: string, plain: string, last: Item)
    requires plain != ""
    ensures Plains(table, plain) + [last] == [Plain(table, plain[0])] + (Plains(table, plain[1..]) + [last])
  {
    hide Plain;
  }

  lemma {:induction false} ClusterReads(table: string, plain: string, c: char, given: Given, following: seq<string>)
    requires forall i :: 0 <= i < |plain| ==> ShortKind(table, plain[i]) in {None, Some(NoArgument)}
    requires AllowedShort(ShortKind(table, c), given) && Supplies(given, following)
    ensures var chars := plain + [c] + if given.Attached? then given.value else "";
            Cluster(Tables(table, table), chars, following)
            == (Plains(table, plain) + [Closing(table, c, given)], if given.Next? then 1 else 0)
    decreases |plain|
  {
    var tail := if given.Attached? then given.value else "";
    var chars := plain + [c] + tail;
    hide ShortKind, ShortStep, Cluster, Plain, AllowedShort, Supplies, Closing;
    ClusterUnfolds(Tables(table, table), chars, following);
    if plain == "" {
      assert chars == [c] + tail && Plains(table, plain) == [];
      assert [] + [Closing(table, c, given)] == [Closing(table, c, given)];
      StepOfLast(table, c, given, following);
    } else {
      assert chars[0] == plain[0] && chars[1..] == plain[1..] + [c] + tail;
      StepOfPlain(table, chars, following);
      ClusterReads(table, plain[1..], c, given, following);
      PlainsNext(table, plain, Closing(table, c, given));
    }
  }

  // ---------- words ----------

  lemma FlagsRead(o: Options, w: Word, following: seq<string>)
    requires Fits(o, w) && w.Flags? && Supplies(w.given, following)
    ensures var arg := Elements(w)[0];
            && !NonOption(arg) && arg != "--" && !IsLong(o, arg)
            && Element(o, o.Intended(), arg, following) == (Reports(o, w), |Elements(w)| - 1)
  {
    var arg, tail := Elements(w)[0], if w.given.Attached? then w.given.value else "";
    assert arg == "-" + w.plain + [w.c] + tail;
    assert arg[1..] == w.plain + [w.c] + tail;
    assert arg[1] == if w.plain == "" then w.c else w.plain[0];
    hide ShortKind, Cluster, Closing;
    ClusterReads(o.Stripped(), w.plain, w.c, w.given, following);
  }

  lemma FirstEquals(name: string, tail: string)
    requires '=' !in name && (tail != "" ==> tail[0] == '=')
    ensures IndexOf(name + tail, '=') == |name|
  {
    var s := name + tail;
    assert forall k :: 0 <= k < |name| ==> s[k] == name[k] && s[k] != '=';
    assert tail != "" ==> s[|name|] == tail[0];
  }

  lemma NameParts(arg: string, name: string, tail: string)
    requires arg == "--" + name + tail && name != ""
    ensures |arg| > 2 && arg[0] == '-' && arg[1] == '-' && arg[2..] == name + tail && arg[2..][..|name|] == name
    ensures |arg[2..]| == |name| + |tail| && (tail != "" ==> arg[2..][|name| + 1..] == tail[1..])
  {
  }

  /** The part of an element behind the name. */
  function Tail(w: Word): string
    requires w.Name? || w.NoName? || w.Unwanted?
  {
    match w
    case Name(_, _, given) => if given.Attached? then "=" + given.value else ""
    case NoName(_, tail) => tail
    case Unwanted(_, _, value) => "=" + value
  }

  lemma TailBehind(w: Word)
    requires w.Name? || w.NoName? || w.Unwanted?
    ensures Elements(w)[0] == "--" + w.name + Tail(w)
    ensures w.Name? && w.given.Attached? ==> Tail(w)[1..] == w.given.value
  {
  }

  lemma NameReads(o: Options, w: Word, following: seq<string>)
    requires Fits(o, w) && (w.Name? || w.NoName? || w.Unwanted?) && (w.Name? ==> Supplies(w.given, following))
    ensures var arg := Elements(w)[0];
            && !NonOption(arg) && arg != "--" && IsLong(o, arg)
            && LongElement(o, arg, following) == (Reports(o, w), |Elements(w)| - 1)
  {
    var arg, tail := Elements(w)[0], Tail(w);
    TailBehind(w);
    OneElement(w);
    hide Means, MatchLong, Elements, LongElement, IndexOf;
    NameParts(arg, w.name, tail);
    LongElementIs(o, arg, w.name, tail, following);
    if w.NoName? {
      NotFound(o.longopts.value, w.name);
    } else {
      FoundIff(o.longopts.value, w.name, w.index);
    }
  }

  /** A long option element, by its parts. */
  lemma LongElementIs(o: Options, arg: string, name: string, tail: string, following: seq<string>)
    requires arg == "--" + name + tail && IsLong(o, arg)
    requires name != "" && '=' !in name && (tail != "" ==> tail[0] == '=')
    ensures LongElement(o, arg, following) ==
            match MatchLong(o.longopts.value, name)
            case Found(i) =>
              var p := o.longopts.value[i];
              if tail != "" then ([if p.hasArg == NoArgument then BadLong(arg, p.val) else Long(i, Some(tail[1..]))], 0)
              else if p.hasArg != RequiredArgument then ([Long(i, None)], 0)
              else if following == [] then ([MissingArgument(arg, p.val)], 0)
              else ([Long(i, Some(following[0]))], 1)
            case _ => ([BadLong(arg, 0)], 0)
  {
    hide MatchLong;
    NameParts(arg, name, tail);
    FirstEquals(name, tail);
    hide IndexOf;
  }

  lemma OneElement(w: Word)
    ensures |Elements(w)| == if (w.Flags? || w.Name?) && w.given.Next? then 2 else 1
  {
  }

  lemma NotFound(long: seq<LongOption>, name: string)
    requires forall i: nat :: !Means(long, name, i)
    ensures !MatchLong(long, name).Found?
  {
    hide Means, MatchLong;
    if MatchLong(long, name).Found? {
      FoundIff(long, name, MatchLong(long, name).index);
    }
  }

  // ---------- whole lines ----------

  lemma LineFront(ws: seq<Word>, end: Ending)
    requires ws != []
    ensures var n := |Elements(ws[0])|;
            && |Line(ws, end)| >= n && Line(ws, end)[..n] == Elements(ws[0]) && Line(ws, end)[n..] == Line(ws[1..], end)
            && Line(ws, end)[0] == Elements(ws[0])[0]
            && (n == 2 ==> Line(ws, end)[1..] != [] && Line(ws, end)[1..][0] == Elements(ws[0])[1])
  {
    hide Elements;
  }

  /** A command line written as documented is read as it was meant, in each ordering. */
  lemma {:induction false} LineIsRead(o: Options, ws: seq<Word>, end: Ending)
    requires LineFits(o, ws, end)
    ensures Parse(o, o.Intended(), Line(ws, end)) == Meaning(o, ws, end)
    decreases |ws|
  {
    if ws == [] {
      EndIsRead(o, end);
    } else {
      hide Fits, Parse, Line, Meaning, Lacks;
      assert Fits(o, ws[0]);
      assert Lacks(ws[0]) ==> ws[1..] == [] && end.Finished?;
      LineIsRead(o, ws[1..], end);
      LineFront(ws, end);
      LineOfNothing();
      WordIsRead(o, ws[0], Line(ws, end));
      MeaningFront(o, ws, end);
    }
  }

  lemma LineOfNothing()
    ensures Line([], Finished) == []
  {
  }

  lemma EndIsRead(o: Options, end: Ending)
    requires LineFits(o, [], end)
    ensures Parse(o, o.Intended(), Line([], end)) == Meaning(o, [], end)
  {
    if end.Dashes? {
      assert (["--"] + end.rest)[1..] == end.rest;
    }
  }

  lemma MeaningFront(o: Options, ws: seq<Word>, end: Ending)
    requires ws != [] && forall i :: 0 <= i < |ws| ==> Fits(o, ws[i])
    ensures var p := Meaning(o, ws[1..], end);
            Meaning(o, ws, end) == if IsOperand(o, ws[0]) then p.(operands := Elements(ws[0]) + p.operands)
                                   else Parsed(Reports(o, ws[0]) + p.items, Elements(ws[0]) + p.options, p.operands)
  {
    hide Elements, Reports, IsOperand, Fits;
  }

  /** A word at the front of the arguments. */
  lemma WordIsRead(o: Options, w: Word, args: seq<string>)
    requires Fits(o, w) && |Elements(w)| <= |args| && args[..|Elements(w)|] == Elements(w)
    requires args[0] == Elements(w)[0]
    requires |Elements(w)| == 2 ==> args[1..] != [] && args[1..][0] == Elements(w)[1]
    requires Lacks(w) ==> args[1..] == []
    ensures var p := Parse(o, o.Intended(), args[|Elements(w)|..]);
            Parse(o, o.Intended(), args)
            == if IsOperand(o, w) then p.(operands := Elements(w) + p.operands)
               else Parsed(Reports(o, w) + p.items, Elements(w) + p.options, p.operands)
  {
    var t, extra: nat := o.Intended(), |Elements(w)| - 1;
    assert t.Next() == t;
    if w.Other? {
      OperandIsRead(o, w, args);
    } else {
      hide Parse, After, Element, NonOption, IsLong;
      if w.Flags? {
        FlagsRead(o, w, args[1..]);
      } else {
        NameReads(o, w, args[1..]);
        assert Element(o, t, args[0], args[1..]) == LongElement(o, args[0], args[1..]) by { ElementIsLong(o, t, args); }
      }
      ParseElement(o, t, args);
      AfterIs(o, t, Reports(o, w), extra, args);
    }
  }

  lemma ElementIsLong(o: Options, t: Tables, args: seq<string>)
    requires args != [] && !NonOption(args[0]) && IsLong(o, args[0])
    ensures Element(o, t, args[0], args[1..]) == LongElement(o, args[0], args[1..])
  {
  }

  lemma OperandIsRead(o: Options, w: Word, args: seq<string>)
    requires Fits(o, w) && w.Other? && args != [] && args[..1] == Elements(w) && args[0] == w.element
    ensures var p := Parse(o, o.Intended(), args[1..]);
            Parse(o, o.Intended(), args)
            == if IsOperand(o, w) then p.(operands := Elements(w) + p.operands)
               else Parsed(Reports(o, w) + p.items, Elements(w) + p.options, p.operands)
  {
    hide NonOption;
    if !IsOperand(o, w) {
      AfterIs(o, o.Intended(), [Operand(args[0])], 0, args);
    }
  }

  /** The ordering that the documentation promises; without a prefix in the option string
      a whole run of calls reads the arguments so. */
  lemma OrderingIs(o: Options)
    ensures "-" <= o.optstring ==> o.Order() == ReturnInOrder
    ensures "+" <= o.optstring ==> o.Order() == RequireOrder
    ensures !("-" <= o.optstring) && !("+" <= o.optstring) ==>
              && o.First() == o.Later() == o.Intended() == Tables(o.optstring, o.optstring)
              && o.Order() == if o.posixlyCorrect then RequireOrder else Permute
  {
  }
}
