/** The perl(1) command line: switches that cluster, switches that take a value, the script and
    what is left for @ARGV. */
module PerlArgv {

  datatype Use = Use(kind: char, value: string)

  datatype PerlArgs = PerlArgs(inc: seq<string>, preUse: seq<Use>, eChunks: seq<string>, script: string,
                               args: seq<string>, autoLine: bool, sawFlag: bool)

  datatype Error = NeedsValue(c: char) | Unsupported(arg: string)

  datatype Result = Ok(pa: PerlArgs) | Err(error: Error)

  const NONE := PerlArgs([], [], [], "", [], false, false)

  predicate TakesValue(c: char) {
    c == 'e' || c == 'I' || c == 'M' || c == 'm'
  }

  predicate Toggle(c: char) {
    c == 'l' || c == 'w' || c == 'W' || c == 'X' || c == 'T' || c == 't'
  }

  /** An argument that is read as a group of switches. */
  predicate IsGroup(a: string) {
    |a| >= 2 && a[0] == '-' && a != "--"
  }

  // ---- what a command line means ------------------------------------------------------------

  function WithValue(pa: PerlArgs, c: char, v: string): PerlArgs {
    if c == 'e' then pa.(eChunks := pa.eChunks + [v])
    else if c == 'I' then pa.(inc := pa.inc + [v])
    else pa.(preUse := pa.preUse + [Use(c, v)])
  }

  function WithToggle(pa: PerlArgs, c: char): PerlArgs {
    if c == 'l' then pa.(autoLine := true) else pa
  }

  /** The arguments argv from the start of one, after what pa holds. */
  function Parse(argv: seq<string>, pa: PerlArgs): Result
    decreases |argv|, 1, 0
  {
    if argv == [] then Ok(pa)
    else if argv[0] == "--" then Ok(pa.(sawFlag := true, args := pa.args + argv[1..]))
    else if !IsGroup(argv[0]) then
      if pa.eChunks == [] then Ok(pa.(script := argv[0], args := pa.args + argv[1..])) else Ok(pa.(args := pa.args + argv))
    else Group(argv[0], 1, argv[1..], pa.(sawFlag := true))
  }

  /** The switches of group a from its j-th character, then the arguments rest. */
  function Group(a: string, j: nat, rest: seq<string>, pa: PerlArgs): Result
    requires j <= |a|
    decreases |rest|, 2, |a| - j
  {
    if j == |a| then Parse(rest, pa)
    else if TakesValue(a[j]) then
      if a[j + 1..] != "" then Parse(rest, WithValue(pa, a[j], a[j + 1..]))
      else if rest == [] then Err(NeedsValue(a[j]))
      else Parse(rest[1..], WithValue(pa, a[j], rest[0]))
    else if Toggle(a[j]) then Group(a, j + 1, rest, WithToggle(pa, a[j]))
    else Err(Unsupported(a))
  }

  /** Both fail, or both give the same: error texts aside. */
  predicate Same(r: Result, q: Result) {
    r == q || (r.Err? && q.Err?)
  }

  // ---- clusters ---------------------------------------------------------------------------

  /** A single switch. */
  function Switch(c: char): string {
    ['-', c]
  }

  /** The same line with every group's switches given separately and every inline value as an
      argument of its own. */
  function Separate(argv: seq<string>): seq<string>
    decreases |argv|, 1, 0
  {
    if argv == [] || !IsGroup(argv[0]) then argv else Spread(argv[0], 1, argv[1..])
  }

  function Spread(a: string, j: nat, rest: seq<string>): seq<string>
    requires j <= |a|
    decreases |rest|, 2, |a| - j
  {
    if j == |a| then Separate(rest)
    else if TakesValue(a[j]) then
      if a[j + 1..] != "" then [Switch(a[j]), a[j + 1..]] + Separate(rest)
      else if rest == [] then [Switch(a[j])]
      else [Switch(a[j]), rest[0]] + Separate(rest[1..])
    else if Toggle(a[j]) then [Switch(a[j])] + Spread(a, j + 1, rest)
    else ["-" + a[j..]] + rest
  }

  /** The line fails at a group whose last character is a dash: alone that dash is --, which is no
      failure. */
  predicate DashEnd(argv: seq<string>)
    decreases |argv|, 1, 0
  {
    argv != [] && IsGroup(argv[0]) && GroupDashEnd(argv[0], 1, argv[1..])
  }

  predicate GroupDashEnd(a: string, j: nat, rest: seq<string>)
    requires j <= |a|
    decreases |rest|, 2, |a| - j
  {
    if j == |a| then DashEnd(rest)
    else if TakesValue(a[j]) then
      if a[j + 1..] != "" then DashEnd(rest) else rest != [] && DashEnd(rest[1..])
    else if Toggle(a[j]) then GroupDashEnd(a, j + 1, rest)
    else a[j..] == "-"
  }

  /** A toggle given alone, before more arguments. */
  lemma {:induction false} ToggleAlone(c: char, more: seq<string>, pa: PerlArgs)
    requires Toggle(c)
    ensures Parse([Switch(c)] + more, pa) == Parse(more, WithToggle(pa.(sawFlag := true), c))
  {
    var argv := [Switch(c)] + more;
    assert argv[1..] == more;
    assert Group(Switch(c), 1, more, pa.(sawFlag := true)) == Group(Switch(c), 2, more, WithToggle(pa.(sawFlag := true), c));
  }

  lemma {:induction false} NoSwitch(t: string, rest: seq<string>, pa: PerlArgs)
    requires t != "" && !TakesValue(t[0]) && !Toggle(t[0])
    ensures t != "-" ==> Parse(["-" + t] + rest, pa).Err?
    ensures t == "-" ==> Parse(["-" + t] + rest, pa).Ok?
  {
    var argv := ["-" + t] + rest;
    assert argv[0][0] == '-' && argv[0][1] == t[0];
    if t == "-" {
      assert argv[0] == "--";
    } else {
      assert argv[0][1..] == t;
      assert argv[0] != "--";
    }
  }

  /** Giving the switches of every group separately parses the same, error texts aside, exactly
      when the line does not fail at a group's final dash. */
  lemma {:induction false} SeparateExact(argv: seq<string>, pa: PerlArgs)
    ensures Same(Parse(Separate(argv), pa), Parse(argv, pa)) <==> !DashEnd(argv)
    decreases |argv|, 1, 0
  {
    if argv != [] && IsGroup(argv[0]) {
      SpreadExact(argv[0], 1, argv[1..], pa.(sawFlag := true));
    }
  }

  lemma {:induction false} SpreadExact(a: string, j: nat, rest: seq<string>, pa: PerlArgs)
    requires j <= |a| && pa.sawFlag
    ensures Same(Parse(Spread(a, j, rest), pa), Group(a, j, rest, pa)) <==> !GroupDashEnd(a, j, rest)
    decreases |rest|, 2, |a| - j
  {
    assert pa.(sawFlag := true) == pa;
    if j == |a| {
      SeparateExact(rest, pa);
    } else if TakesValue(a[j]) {
      if a[j + 1..] != "" {
        SeparateExact(rest, WithValue(pa, a[j], a[j + 1..]));
      } else if rest != [] {
        SeparateExact(rest[1..], WithValue(pa, a[j], rest[0]));
      }
    } else if Toggle(a[j]) {
      ToggleAlone(a[j], Spread(a, j + 1, rest), pa);
      SpreadExact(a, j + 1, rest, WithToggle(pa, a[j]));
    } else {
      NoSwitch(a[j..], rest, pa);
    }
  }

  /** One toggle taken off the front of a group. */
  lemma {:induction false} ClusterSplit(c: char, tail: string, rest: seq<string>, pa: PerlArgs)
    requires Toggle(c) && tail != ""
    ensures Same(Parse([Switch(c), "-" + tail] + rest, pa), Parse([Switch(c) + tail] + rest, pa)) <==> tail != "-"
  {
    var a, b := Switch(c) + tail, "-" + tail;
    var saw := pa.(sawFlag := true);
    assert [Switch(c), b] + rest == [Switch(c)] + ([b] + rest);
    ToggleAlone(c, [b] + rest, pa);
    assert ([a] + rest)[1..] == rest && ([b] + rest)[1..] == rest;
    assert Parse([a] + rest, pa) == Group(a, 2, rest, WithToggle(saw, c));
    if tail == "-" {
      NoSwitch(tail, rest, WithToggle(saw, c));
      assert a[2] == '-';
    } else {
      assert b != "--" by { assert b[1..] == tail; }
      assert Parse([b] + rest, WithToggle(saw, c)) == Group(b, 1, rest, WithToggle(saw, c));
      Shifted(a, 2, b, 1, rest, WithToggle(saw, c));
    }
  }

  /** A group is read by what is left of it. */
  lemma {:induction false} Shifted(a: string, i: nat, b: string, j: nat, rest: seq<string>, pa: PerlArgs)
    requires i <= |a| && j <= |b| && a[i..] == b[j..]
    ensures Same(Group(a, i, rest, pa), Group(b, j, rest, pa))
    decreases |a| - i
  {
    if i < |a| {
      assert a[i] == a[i..][0] == b[j..][0] == b[j];
      assert a[i + 1..] == a[i..][1..] == b[j..][1..] == b[j + 1..];
      if Toggle(a[i]) {
        Shifted(a, i + 1, b, j + 1, rest, WithToggle(pa, a[i]));
      }
    }
  }

  /** An inline value of -e, -I, -M or -m is the same as a separate one. */
  lemma {:induction false} InlineValue(c: char, v: string, rest: seq<string>, pa: PerlArgs)
    requires TakesValue(c) && v != ""
    ensures Parse([Switch(c) + v] + rest, pa) == Parse([Switch(c), v] + rest, pa)
  {
    var a := Switch(c) + v;
    assert ([a] + rest)[1..] == rest && a[2..] == v;
  }

  /** What is left for @ARGV is a suffix of the command line. */
  lemma {:induction false} ArgsAreSuffix(argv: seq<string>, pa: PerlArgs)
    requires pa.args == [] && Parse(argv, pa).Ok?
    ensures exists k :: 0 <= k <= |argv| && Parse(argv, pa).pa.args == argv[k..]
    decreases |argv|, 1, 0
  {
    if argv == [] {
      assert argv[0..] == [];
    } else if argv[0] == "--" {
      assert [] + argv[1..] == argv[1..];
    } else if !IsGroup(argv[0]) {
      assert [] + argv[1..] == argv[1..] && [] + argv == argv[0..];
    } else {
      GroupSuffix(argv[0], 1, argv[1..], pa.(sawFlag := true));
      var k :| 0 <= k <= |argv[1..]| && Parse(argv, pa).pa.args == argv[1..][k..];
      assert argv[1..][k..] == argv[k + 1..];
    }
  }

  lemma {:induction false} GroupSuffix(a: string, j: nat, rest: seq<string>, pa: PerlArgs)
    requires j <= |a| && pa.args == [] && Group(a, j, rest, pa).Ok?
    ensures exists k :: 0 <= k <= |rest| && Group(a, j, rest, pa).pa.args == rest[k..]
    decreases |rest|, 2, |a| - j
  {
    if j == |a| {
      ArgsAreSuffix(rest, pa);
    } else if TakesValue(a[j]) {
      if a[j + 1..] != "" {
        ArgsAreSuffix(rest, WithValue(pa, a[j], a[j + 1..]));
      } else if rest != [] {
        var pa2 := WithValue(pa, a[j], rest[0]);
        ArgsAreSuffix(rest[1..], pa2);
        var k :| 0 <= k <= |rest[1..]| && Parse(rest[1..], pa2).pa.args == rest[1..][k..];
        assert rest[1..][k..] == rest[k + 1..];
      }
    } else if Toggle(a[j]) {
      GroupSuffix(a, j + 1, rest, WithToggle(pa, a[j]));
    }
  }

  // ---- what a line of options means ---------------------------------------------------------

  /** One group of switches: letters without a value, and possibly a letter with one, in the same
      argument or in the next. */
  datatype Item =
    | Flags(letters: string)
    | Valued(letters: string, c: char, v: string, inline: bool)

  predicate WellFormed(item: Item) {
    && (forall i :: 0 <= i < |item.letters| ==> item.letters[i] in "lwWXTt")
    && (item.Flags? ==> item.letters != "")
    && (item.Valued? ==> item.c in "eIMm" && (item.inline ==> item.v != ""))
  }

  function Rendered(item: Item): seq<string> {
    match item
    case Flags(letters) => ["-" + letters]
    case Valued(letters, c, v, inline) => if inline then ["-" + letters + [c] + v] else ["-" + letters + [c], v]
  }

  function Line(items: seq<Item>): seq<string> {
    if items == [] then [] else Rendered(items[0]) + Line(items[1..])
  }

  /** The values given to a letter, in order. */
  function ValuesOf(items: seq<Item>, c: char): seq<string> {
    if items == [] then []
    else (if items[0].Valued? && items[0].c == c then [items[0].v] else []) + ValuesOf(items[1..], c)
  }

  /** The -M and -m uses, in order. */
  function Uses(items: seq<Item>): seq<Use> {
    if items == [] then []
    else (if items[0].Valued? && items[0].c in "Mm" then [Use(items[0].c, items[0].v)] else []) + Uses(items[1..])
  }

  predicate HasL(items: seq<Item>) {
    exists i :: 0 <= i < |items| && 'l' in items[i].letters
  }

  /** What follows the options: nothing, --, or a first argument that is no option. */
  predicate Ending(end: seq<string>) {
    end == [] || end[0] == "--" || !IsGroup(end[0])
  }

  /** What pa becomes by the options of a line. */
  predicate Reads(pa: PerlArgs, items: seq<Item>, r: PerlArgs) {
    && r.inc == pa.inc + ValuesOf(items, 'I') && r.eChunks == pa.eChunks + ValuesOf(items, 'e')
    && r.preUse == pa.preUse + Uses(items) && (r.autoLine <==> pa.autoLine || HasL(items))
    && (r.sawFlag <==> pa.sawFlag || items != []) && r.script == pa.script && r.args == pa.args
  }

  /** The letters of a group before its last switch. */
  lemma {:induction false} LettersRead(a: string, j: nat, n: nat, rest: seq<string>, pa: PerlArgs) returns (r: PerlArgs)
    requires j <= n <= |a| && forall i :: j <= i < n ==> a[i] in "lwWXTt"
    ensures Group(a, j, rest, pa) == Group(a, n, rest, r)
    ensures r == pa.(autoLine := r.autoLine) && (r.autoLine <==> pa.autoLine || 'l' in a[j..n])
    decreases n - j
  {
    if j == n {
      r := pa;
    } else {
      r := LettersRead(a, j + 1, n, rest, WithToggle(pa, a[j]));
      assert a[j..n] == [a[j]] + a[j + 1..n];
    }
  }

  /** The group an item is rendered to. */
  function GroupText(item: Item): string {
    "-" + item.letters + if item.Flags? then "" else [item.c] + if item.inline then item.v else ""
  }

  lemma {:induction false} GroupShape(item: Item)
    requires WellFormed(item)
    ensures var a, n := GroupText(item), 1 + |item.letters|;
      && IsGroup(a) && n <= |a| && a[1..n] == item.letters && (forall i :: 1 <= i < n ==> a[i] in "lwWXTt")
      && (item.Flags? ==> n == |a|)
      && (item.Valued? ==> n < |a| && a[n] == item.c && a[n + 1..] == if item.inline then item.v else "")
      && Rendered(item) == [a] + if item.Valued? && !item.inline then [item.v] else []
  {
    var a, n := GroupText(item), 1 + |item.letters|;
    assert forall i :: 1 <= i < n ==> a[i] == item.letters[i - 1];
    assert a[1] == if item.letters != "" then item.letters[0] else item.c;
    assert a[1] != '-';
    if item.Flags? {
      assert a == "-" + item.letters;
    } else {
      assert a == "-" + item.letters + [item.c] + if item.inline then item.v else "";
      assert !item.inline ==> a == "-" + item.letters + [item.c];
    }
  }

  lemma {:induction false} ReadsOne(item: Item, pa: PerlArgs, p: PerlArgs)
    requires WellFormed(item) && p == pa.(sawFlag := true, autoLine := p.autoLine) && (p.autoLine <==> pa.autoLine || 'l' in item.letters)
    ensures Reads(pa, [item], if item.Flags? then p else WithValue(p, item.c, item.v))
  {
    assert [item][1..] == [] && ValuesOf([], 'I') == ValuesOf([], 'e') == [] && Uses([]) == [];
    if 'l' in item.letters {
      assert 'l' in [item][0].letters;
    }
  }

  lemma {:induction false} ItemRead(item: Item, rest: seq<string>, pa: PerlArgs) returns (r: PerlArgs)
    requires WellFormed(item)
    ensures Parse(Rendered(item) + rest, pa) == Parse(rest, r) && Reads(pa, [item], r)
  {
    hide Reads, WellFormed, Rendered, GroupText;
    GroupShape(item);
    var a, n := GroupText(item), 1 + |item.letters|;
    var argv := Rendered(item) + rest;
    var tail := argv[1..];
    assert argv[0] == a && tail == if item.Valued? && !item.inline then [item.v] + rest else rest;
    r := LettersRead(a, 1, n, tail, pa.(sawFlag := true));
    ReadsOne(item, pa, r);
    if item.Valued? {
      assert !item.inline ==> tail[1..] == rest && tail[0] == item.v;
      ValueLetter(item);
      r := WithValue(r, item.c, item.v);
    }
  }

  lemma {:induction false} ValueLetter(item: Item)
    requires WellFormed(item)
    ensures item.Valued? ==> TakesValue(item.c) && (item.inline ==> item.v != "")
  {
  }

  /** A line of options gives their values in order, -l exactly when one of its groups has it, and
      then whatever its ending gives. */
  lemma {:induction false} LineRead(items: seq<Item>, end: seq<string>, pa: PerlArgs) returns (r: PerlArgs)
    requires forall i :: 0 <= i < |items| ==> WellFormed(items[i])
    ensures Parse(Line(items) + end, pa) == Parse(end, r) && Reads(pa, items, r)
  {
    if items == [] {
      r := pa;
      assert Line(items) + end == end;
    } else {
      var more := items[1..];
      assert Line(items) + end == Rendered(items[0]) + (Line(more) + end);
      var r1 := ItemRead(items[0], Line(more) + end, pa);
      r := LineRead(more, end, r1);
      OneMore(items, pa, r1, r);
    }
  }

  lemma {:induction false} ValuesSplit(items: seq<Item>, c: char)
    requires items != []
    ensures ValuesOf(items, c) == ValuesOf([items[0]], c) + ValuesOf(items[1..], c)
    ensures Uses(items) == Uses([items[0]]) + Uses(items[1..])
  {
    assert [items[0]][1..] == [] && ValuesOf([], c) == [] && Uses([]) == [];
  }

  lemma {:induction false} OneMore(items: seq<Item>, pa: PerlArgs, r1: PerlArgs, r: PerlArgs)
    requires items != [] && Reads(pa, [items[0]], r1) && Reads(r1, items[1..], r)
    ensures Reads(pa, items, r)
  {
    ValuesSplit(items, 'I');
    ValuesSplit(items, 'e');
    assert HasL(items) <==> 'l' in items[0].letters || HasL(items[1..]) by {
      if 'l' in items[0].letters { assert HasL(items); }
      if i :| 0 <= i < |items[1..]| && 'l' in items[1..][i].letters { assert 'l' in items[i + 1].letters; }
      if i :| 1 <= i < |items| && 'l' in items[i].letters { assert 'l' in items[1..][i - 1].letters; }
    }
    assert HasL([items[0]]) <==> 'l' in items[0].letters by {
      if 'l' in items[0].letters { assert 'l' in [items[0]][0].letters; }
    }
  }

  /** What a command line means, whatever its options and its ending. */
  lemma {:induction false} LineExact(items: seq<Item>, end: seq<string>)
    requires (forall i :: 0 <= i < |items| ==> WellFormed(items[i])) && Ending(end)
    ensures var r := Parse(Line(items) + end, NONE);
      var script := end != [] && end[0] != "--" && ValuesOf(items, 'e') == [];
      && r.Ok?
      && r.pa.inc == ValuesOf(items, 'I') && r.pa.eChunks == ValuesOf(items, 'e') && r.pa.preUse == Uses(items)
      && (r.pa.autoLine <==> HasL(items)) && (r.pa.sawFlag <==> items != [] || (end != [] && end[0] == "--"))
      && r.pa.script == (if script then end[0] else "")
      && r.pa.args == if end == [] then [] else if script || end[0] == "--" then end[1..] else end
  {
    var r := LineRead(items, end, NONE);
  }

  /** And every line that is accepted is such a line. */
  lemma {:induction false} AcceptedIsLine(argv: seq<string>, pa: PerlArgs) returns (items: seq<Item>, end: seq<string>)
    requires Parse(argv, pa).Ok?
    ensures argv == Line(items) + end && Ending(end) && forall i :: 0 <= i < |items| ==> WellFormed(items[i])
    decreases |argv|
  {
    if argv == [] || argv[0] == "--" || !IsGroup(argv[0]) {
      items, end := [], argv;
    } else {
      var item, rest, pa2 := GroupIsItem(argv[0], 1, argv[1..], pa.(sawFlag := true), "");
      assert argv == Rendered(item) + rest by {
        assert argv == [argv[0]] + argv[1..];
      }
      var more;
      more, end := AcceptedIsLine(rest, pa2);
      items := [item] + more;
      assert items[1..] == more;
      assert Line(items) + end == Rendered(item) + (Line(more) + end);
    }
  }

  /** A group of an accepted line from its j-th character, the letters before it being toggles. */
  lemma {:induction false} GroupIsItem(a: string, j: nat, rest: seq<string>, pa: PerlArgs, letters: string)
    returns (item: Item, left: seq<string>, pa2: PerlArgs)
    requires 1 <= j <= |a| && |a| >= 2 && a[0] == '-' && a[..j] == "-" + letters && Group(a, j, rest, pa).Ok?
    requires forall i :: 0 <= i < |letters| ==> letters[i] in "lwWXTt"
    ensures WellFormed(item) && [a] + rest == Rendered(item) + left && |left| <= |rest| && Parse(left, pa2).Ok?
    decreases |a| - j
  {
    if j == |a| {
      assert a[..j] == a;
      item, left, pa2 := Flags(letters), rest, pa;
    } else if TakesValue(a[j]) {
      assert a == a[..j] + [a[j]] + a[j + 1..];
      if a[j + 1..] != "" {
        item, left := Valued(letters, a[j], a[j + 1..], true), rest;
        pa2 := WithValue(pa, a[j], a[j + 1..]);
      } else {
        assert a == "-" + letters + [a[j]];
        item, left := Valued(letters, a[j], rest[0], false), rest[1..];
        pa2 := WithValue(pa, a[j], rest[0]);
        assert [a] + rest == [a, rest[0]] + rest[1..];
      }
    } else {
      assert a[..j + 1] == "-" + (letters + [a[j]]);
      item, left, pa2 := GroupIsItem(a, j + 1, rest, WithToggle(pa, a[j]), letters + [a[j]]);
    }
  }

  // ---- the parser -----------------------------------------------------------------------------

  method ParsePerlArgv(argv: seq<string>) returns (r: Result)
    ensures r == Parse(argv, NONE)
  {
    var pa := NONE;
    var i := 0;
    assert argv[0..] == argv;
    while i < |argv|
      invariant i <= |argv| && Parse(argv[i..], pa) == Parse(argv, NONE)
      invariant pa.args == []
      decreases |argv| - i
    {
      var a := argv[i];
      ghost var left := argv[i..];
      assert left[1..] == argv[i + 1..];
      if a == "--" {
        pa := pa.(sawFlag := true);
        i := i + 1;
        break;
      }
      if |a| < 2 || a[0] != '-' {
        if |pa.eChunks| == 0 {
          pa := pa.(script := a);
          i := i + 1;
        }
        break;
      }
      pa := pa.(sawFlag := true);
      ghost var at := i;
      var j := 1;
      while j < |a|
        invariant 1 <= j <= |a| && at <= i < |argv| && pa.args == []
        invariant Group(a, j, argv[i + 1..], pa) == Parse(argv, NONE)
        decreases |a| - j
      {
        var c := a[j];
        if c == 'e' || c == 'I' || c == 'M' || c == 'm' {
          var v := a[j + 1..];
          ghost var next := argv[i + 1..];
          if v == "" {
            i := i + 1;
            if i >= |argv| {
              return Err(NeedsValue(c));
            }
            v := argv[i];
            assert next[1..] == argv[i + 1..];
          }
          if c == 'e' {
            pa := pa.(eChunks := pa.eChunks + [v]);
          } else if c == 'I' {
            pa := pa.(inc := pa.inc + [v]);
          } else {
            pa := pa.(preUse := pa.preUse + [Use(c, v)]);
          }
          j := |a|;
        } else if c == 'l' {
          pa := pa.(autoLine := true);
          j := j + 1;
        } else if c == 'w' || c == 'W' || c == 'X' || c == 'T' || c == 't' {
          j := j + 1;
        } else {
          return Err(Unsupported(a));
        }
      }
      i := i + 1;
    }
    if i < |argv| {
      pa := pa.(args := pa.args + argv[i..]);
    }
    return Ok(pa);
  }
}
