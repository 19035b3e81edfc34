/**
 The `PackageManagerCommand` documentation widget: from a list of command
 fragments and an `execute` flag it derives, for each of npm, yarn and pnpm,
 one multi-line shell text, and hands each text to a tab labelled with the
 manager's name. Only the strings handed to the tab and code-block renderers
 are modelled here.
 */
module PackageManagerCommand {
  import opened JsString

  datatype Manager = Npm | Yarn | Pnpm

  /** The managers in tab order. */
  const Managers: seq<Manager> := [Npm, Yarn, Pnpm]

  /** What the widget hands to one `TabItem` and its `CodeBlock`. */
  datatype Tab = Tab(key: string, value: string, tabLabel: string, title: string, code: string)

  function Name(m: Manager): string
  {
    match m
    case Npm => "npm"
    case Yarn => "yarn"
    case Pnpm => "pnpm"
  }

  /** The program that starts each line: `npx`/`pnpx` in execute mode, the
      manager itself otherwise. */
  function Runner(m: Manager, execute: bool): string
  {
    if execute then (if m == Pnpm then "pnpx" else "npx") else Name(m)
  }

  /** The fragment behind its runner and a space, before any rewriting. */
  function Prefixed(m: Manager, execute: bool, command: string): string
  {
    Runner(m, execute) + " " + command
  }

  /** npm spells `add` as `install`: for npm, and only npm, the first `add` of
      the line is rewritten, whatever the execute flag. */
  function Rewrite(m: Manager, line: string): string
  {
    if m == Npm then ReplaceFirst(line, "add", "install") else line
  }

  /** The shell line shown for one fragment. */
  function Line(m: Manager, execute: bool, command: string): string
  {
    Rewrite(m, Prefixed(m, execute, command))
  }

  /** One line per fragment, in input order. */
  function Lines(m: Manager, execute: bool, commands: seq<string>): seq<string>
  {
    seq(|commands|, k requires 0 <= k < |commands| => Line(m, execute, commands[k]))
  }

  /** The text of the code block of manager `m`. */
  function Text(m: Manager, execute: bool, commands: seq<string>): string
  {
    JoinLines(Lines(m, execute, commands))
  }

  function TabFor(m: Manager, commands: seq<string>, execute: bool): Tab
  {
    Tab(Name(m), Name(m), Name(m), Name(m) + " command", Text(m, execute, commands))
  }

  /** The tabs of the widget, in the order of `Managers`. */
  function Render(commands: seq<string>, execute: bool): seq<Tab>
  {
    seq(|Managers|, k requires 0 <= k < |Managers| => TabFor(Managers[k], commands, execute))
  }

  // ---------------------------------------------------------------------------
  // Properties

  /** Every manager has its tab, and the names tell the managers apart. */
  lemma ManagersListed(m: Manager, n: Manager)
    ensures m in Managers
    ensures Name(m) == Name(n) <==> m == n
  {
  }

  /** Execute mode: pnpm runs the fragment with `pnpx`, yarn with `npx`, and the
      npm line starts with `npx ` as well. */
  lemma ExecuteLines(command: string)
    ensures Line(Pnpm, true, command) == "pnpx " + command
    ensures Line(Yarn, true, command) == "npx " + command
    ensures "npx " <= Line(Npm, true, command)
  {
    NpmLine(true, command);
  }

  /** Without execute mode each line starts with the manager's own name and a
      space. */
  lemma ManagerNamePrefix(m: Manager, command: string)
    ensures Name(m) + " " <= Line(m, false, command)
  {
    if m == Npm {
      NpmLine(false, command);
    }
  }

  /** yarn and pnpm lines are the runner, a space and the fragment, unrewritten,
      in either mode. */
  lemma NoRewriteOutsideNpm(m: Manager, execute: bool, command: string)
    requires m != Npm
    ensures Line(m, execute, command) == Runner(m, execute) + " " + command
  {
  }

  /** No runner contains an `a`, so no `add` starts inside `npm `, `npx ` or
      `pnpx `: the npm rewrite always lands in the fragment. */
  lemma NpmLine(execute: bool, command: string)
    ensures Line(Npm, execute, command)
         == Runner(Npm, execute) + " " + ReplaceFirst(command, "add", "install")
  {
    var p := Runner(Npm, execute) + " ";
    assert p == "npx " || p == "npm ";
    ReplaceFirstAfterPrefix(p, command, "add", "install");
  }

  /** The npm line rewrites the first `add` of the fragment, at index `i`, to
      `install` and keeps everything else; a fragment without `add` is only
      prefixed. */
  lemma NpmLineRewritesFirstAdd(execute: bool, command: string)
    ensures FirstIndexOf(command, "add").None? ==>
      Line(Npm, execute, command) == Runner(Npm, execute) + " " + command
    ensures FirstIndexOf(command, "add").Some? ==>
      var i := FirstIndexOf(command, "add").value;
      Line(Npm, execute, command)
        == Runner(Npm, execute) + " " + command[..i] + "install" + command[i + 3..]
  {
    NpmLine(execute, command);
    match FirstIndexOf(command, "add")
    case None =>
      ReplaceFirstNoMatch(command, "add", "install");
    case Some(i) =>
      ReplaceFirstAtMatch(command, "add", "install", i);
  }

  /** A fragment without a line break gives a line without one. */
  lemma LineHasNoBreak(m: Manager, execute: bool, command: string)
    requires '\n' !in command
    ensures '\n' !in Line(m, execute, command)
  {
    var p := Prefixed(m, execute, command);
    assert '\n' !in Runner(m, execute) + " ";
    assert '\n' !in p;
    if m == Npm {
      ReplaceFirstChars(p, "add", "install", '\n');
    }
  }

  /** The text is empty for an empty list of fragments; otherwise, when no
      fragment holds a line break, its lines are exactly the transformed
      fragments, one per fragment and in input order. */
  lemma TextLines(m: Manager, execute: bool, commands: seq<string>)
    requires forall k :: 0 <= k < |commands| ==> '\n' !in commands[k]
    ensures |commands| == 0 ==> Text(m, execute, commands) == ""
    ensures |commands| > 0 ==>
      var lines := SplitLines(Text(m, execute, commands));
      |lines| == |commands|
      && forall k :: 0 <= k < |commands| ==> lines[k] == Line(m, execute, commands[k])
  {
    if |commands| > 0 {
      var lines := Lines(m, execute, commands);
      forall k | 0 <= k < |lines| ensures '\n' !in lines[k] {
        LineHasNoBreak(m, execute, commands[k]);
      }
      SplitJoinLines(lines);
    }
  }

  /** Three tabs, npm, yarn and pnpm in that order; key, value and label (`tabLabel`) are the
      manager's name, the title is `<manager> command`, the code is its text. */
  lemma RenderTabs(commands: seq<string>, execute: bool)
    ensures |Render(commands, execute)| == 3
    ensures Render(commands, execute)[0].tabLabel == "npm"
    ensures Render(commands, execute)[1].tabLabel == "yarn"
    ensures Render(commands, execute)[2].tabLabel == "pnpm"
    ensures forall k :: 0 <= k < 3 ==>
      var t := Render(commands, execute)[k];
      t.key == t.tabLabel && t.value == t.tabLabel
      && t.title == t.tabLabel + " command"
      && t.code == Text(Managers[k], execute, commands)
  {
  }

  // ---------------------------------------------------------------------------
  // Worked cases

  /** A single fragment gives a single line. */
  lemma SingleFragment(m: Manager, execute: bool, command: string)
    ensures Text(m, execute, [command]) == Line(m, execute, command)
  {
  }

  /** A fragment put in front of a non-empty list gives its line, a line
      break, then the text of the rest. */
  lemma TextPrepend(m: Manager, execute: bool, command: string, commands: seq<string>)
    requires |commands| > 0
    ensures Text(m, execute, [command] + commands)
         == Line(m, execute, command) + "\n" + Text(m, execute, commands)
  {
    assert Lines(m, execute, [command] + commands)[1..] == Lines(m, execute, commands);
  }

  /** `add <pkg>` rewritten for npm: `add` begins the fragment, so it is the
      first `add` of the line whatever the package name. */
  lemma NpmInstalls(execute: bool, pkg: string)
    ensures Line(Npm, execute, "add " + pkg) == Runner(Npm, execute) + " install " + pkg
  {
    NpmLine(execute, "add " + pkg);
    assert "add" <= "add " + pkg;
    ReplaceFirstAtMatch("add " + pkg, "add", "install", 0);
    assert ("add " + pkg)[3..] == " " + pkg;
  }

  /** `["add <pkg>"]` without execute mode (`["add axios"]` for one): npm
      installs, yarn and pnpm add. */
  lemma AddPackage(pkg: string)
    ensures Text(Npm, false, ["add " + pkg]) == "npm install " + pkg
    ensures Text(Yarn, false, ["add " + pkg]) == "yarn add " + pkg
    ensures Text(Pnpm, false, ["add " + pkg]) == "pnpm add " + pkg
  {
    SingleFragment(Npm, false, "add " + pkg);
    SingleFragment(Yarn, false, "add " + pkg);
    SingleFragment(Pnpm, false, "add " + pkg);
    NpmInstalls(false, pkg);
  }

  /** `["add <a>", "add <b>"]` without execute mode, for npm
      (`["add foo", "add bar"]` for one): one rewritten line per fragment. */
  lemma AddTwoPackages(a: string, b: string)
    ensures Text(Npm, false, ["add " + a, "add " + b]) == "npm install " + a + "\nnpm install " + b
  {
    assert ["add " + a, "add " + b] == ["add " + a] + ["add " + b];
    TextPrepend(Npm, false, "add " + a, ["add " + b]);
    SingleFragment(Npm, false, "add " + b);
    NpmInstalls(false, a);
    NpmInstalls(false, b);
  }

  /** In execute mode a fragment without `add` is only prefixed: `npx` for npm
      and yarn, `pnpx` for pnpm. */
  lemma ExecuteWithoutAdd(command: string)
    requires FirstIndexOf(command, "add").None?
    ensures Text(Npm, true, [command]) == "npx " + command
    ensures Text(Yarn, true, [command]) == "npx " + command
    ensures Text(Pnpm, true, [command]) == "pnpx " + command
  {
    SingleFragment(Npm, true, command);
    SingleFragment(Yarn, true, command);
    SingleFragment(Pnpm, true, command);
    NpmLine(true, command);
    ReplaceFirstNoMatch(command, "add", "install");
  }

  /** `create-react-app my-app` has no `d`, hence no `add`, so
      `["create-react-app my-app"]` in execute mode is only prefixed. */
  lemma CreateReactAppHasNoAdd()
    ensures FirstIndexOf("create-react-app my-app", "add").None?
  {
    NoMatchWithoutChar("create-react-app my-app", "add", 1);
  }

  /** The rewrite does not look at the execute flag: npm in execute mode turns
      `add-x` into `npx install-x`. */
  lemma ExecuteNpmIsRewritten()
    ensures Text(Npm, true, ["add-x"]) == "npx install-x"
  {
    SingleFragment(Npm, true, "add-x");
    NpmLine(true, "add-x");
    ReplaceFirstAtMatch("add-x", "add", "install", 0);
  }
}
