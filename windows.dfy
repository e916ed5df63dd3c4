/**
 * `WindowsExecutionPlatform` (src/execution_platform/target_platform/windows.rs):
 * commands run as configured (no elevation), links are made by a PowerShell
 * `New-Item` command, and the process environment is refreshed from the
 * user's environment block, a sequence of NUL-terminated UTF-16
 * `NAME=VALUE` entries ended by an empty one.
 */
module Windows {
  import opened Prelude
  import Schema
  import opened ArgumentResolver
  import opened Process
  import opened Utf16

  // ---------------------------------------------------------------------------
  // Commands and links
  // ---------------------------------------------------------------------------

  /** `construct_command`: the resolved command and arguments; `as_root` plays no part. */
  function ConstructCommand(config: Schema.CommandConfig, home: string): (c: Command)
    ensures c.program == ResolveArgument(config.command, Some(home))
    ensures c.args == ResolveOptionalArguments(config.args, home)
    ensures |Argv(c)| == 1 + (if config.args.Some? then |config.args.value| else 0)
  {
    Command(ResolveArgument(config.command, Some(home)), ResolveOptionalArguments(config.args, home))
  }

  /** Whatever `as_root` says, the same command is built. */
  lemma AsRootIsIgnored(config: Schema.CommandConfig, home: string, asRoot: Option<bool>)
    ensures ConstructCommand(config.(asRoot := asRoot), home) == ConstructCommand(config, home)
  {
  }

  const NewItemPrefix: string := "New-Item -ItemType SymbolicLink -Path \""
  const ValueInfix: string := "\" -Value \""

  /** The PowerShell command run by `create_link`: the link path first, then the original, each in double quotes. */
  function NewItemCommand(original: string, link: string): string {
    NewItemPrefix + link + ValueInfix + original + "\""
  }

  /** `["-NoProfile", "-Command", <New-Item command>]` for `powershell.exe`. */
  function LinkCommand(original: string, link: string): (c: Command)
    ensures c.program == "powershell.exe"
    ensures c.args == ["-NoProfile", "-Command", NewItemCommand(original, link)]
  {
    Command("powershell.exe", ["-NoProfile", "-Command", NewItemCommand(original, link)])
  }

  /** `create_link`: spawn PowerShell and judge by its exit status alone. */
  function CreateLink(original: string, link: string, host: Host): (s: Step)
    ensures s.effects == [Spawned(LinkCommand(original, link))]
    ensures s.result == StatusResult(host.status(LinkCommand(original, link)))
  {
    var command := LinkCommand(original, link);
    Step(StatusResult(host.status(command)), [Spawned(command)])
  }

  /**
   * Each `New-Item` command names one link and one original: when the link
   * path holds no double quote, the command string determines both paths.
   */
  lemma NewItemCommandIsUnambiguous(o1: string, l1: string, o2: string, l2: string)
    requires '"' !in l1 && '"' !in l2
    requires NewItemCommand(o1, l1) == NewItemCommand(o2, l2)
    ensures o1 == o2 && l1 == l2
  {
    var p := |NewItemPrefix|;
    var c1 := NewItemCommand(o1, l1);
    var c2 := NewItemCommand(o2, l2);
    assert c1[p..] == l1 + (ValueInfix + o1 + "\"");
    assert c2[p..] == l2 + (ValueInfix + o2 + "\"");
    FirstQuote(l1, ValueInfix + o1 + "\"");
    FirstQuote(l2, ValueInfix + o2 + "\"");
    assert |l1| == |l2|;
    assert l1 == c1[p..p + |l1|] && l2 == c2[p..p + |l2|];
    var q := p + |l1| + |ValueInfix|;
    assert o1 == c1[q..|c1| - 1] && o2 == c2[q..|c2| - 1];
  }

  /** In `a + b` with no quote in `a` and a quote first in `b`, the first quote sits at `|a|`. */
  lemma FirstQuote(a: string, b: string)
    requires '"' !in a && b != [] && b[0] == '"'
    ensures forall j :: 0 <= j < |a| ==> (a + b)[j] != '"'
    ensures (a + b)[|a|] == '"'
  {
    forall j | 0 <= j < |a|
      ensures (a + b)[j] != '"'
    {
      assert (a + b)[j] == a[j];
    }
  }

  // ---------------------------------------------------------------------------
  // `parse_environment_string`: `entry.split('=')` and a length test
  // ---------------------------------------------------------------------------

  function Count(s: string, c: char): nat
    decreases |s|
  {
    if s == [] then 0 else (if s[0] == c then 1 else 0) + Count(s[1..], c)
  }

  /** `str::split(sep)`: the pieces between separators, one more than there are separators. */
  function Split(s: string, sep: char): (pieces: seq<string>)
    ensures |pieces| == Count(s, sep) + 1
    ensures forall k :: 0 <= k < |pieces| ==> sep !in pieces[k]
    decreases |s|
  {
    if s == [] then [[]]
    else
      var rest := Split(s[1..], sep);
      if s[0] == sep then [[]] + rest
      else [[s[0]] + rest[0]] + rest[1..]
  }

  /** `pieces.join(sep)`. */
  function Join(pieces: seq<string>, sep: char): string
    requires pieces != []
    decreases |pieces|
  {
    if |pieces| == 1 then pieces[0] else pieces[0] + [sep] + Join(pieces[1..], sep)
  }

  /** Splitting loses nothing: joining the pieces gives the string back. */
  lemma {:induction false} JoinOfSplit(s: string, sep: char)
    ensures Join(Split(s, sep), sep) == s
    decreases |s|
  {
    if s != [] {
      var rest := Split(s[1..], sep);
      JoinOfSplit(s[1..], sep);
      if s[0] == sep {
        assert ([[]] + rest)[1..] == rest;
        assert s == [sep] + s[1..];
      } else {
        var pieces := [[s[0]] + rest[0]] + rest[1..];
        if |rest| == 1 {
          assert s == [s[0]] + rest[0];
        } else {
          assert pieces[1..] == rest[1..];
          assert Join(rest, sep) == rest[0] + [sep] + Join(rest[1..], sep);
          assert s == [s[0]] + s[1..];
        }
      }
    }
  }

  /** Splitting text free of the separator, after a separator-free head `a` and one separator. */
  lemma {:induction false} SplitOfJoin(a: string, b: string, sep: char)
    requires sep !in a && sep !in b
    ensures Split(a + [sep] + b, sep) == [a, b]
    decreases |a|
  {
    if a == [] {
      assert a + [sep] + b == [sep] + b;
      assert ([sep] + b)[1..] == b;
      SplitWithoutSeparator(b, sep);
    } else {
      assert (a + [sep] + b)[1..] == a[1..] + [sep] + b;
      assert a[0] != sep && sep !in a[1..];
      SplitOfJoin(a[1..], b, sep);
      assert [a[0]] + a[1..] == a;
    }
  }

  lemma {:induction false} SplitWithoutSeparator(s: string, sep: char)
    requires sep !in s
    ensures Split(s, sep) == [s]
    decreases |s|
  {
    if s != [] {
      assert s[0] != sep && sep !in s[1..];
      SplitWithoutSeparator(s[1..], sep);
      assert [s[0]] + s[1..] == s;
    }
  }

  /** `parse_environment_string`: a name and a value exactly when the split gives two pieces. */
  function ParseEnvironmentString(entry: string): (r: Option<(string, string)>)
    ensures r.Some? <==> Count(entry, '=') == 1
    ensures r.Some? ==> '=' !in r.value.0 && '=' !in r.value.1
  {
    var v := Split(entry, '=');
    if |v| == 2 then Some((v[0], v[1])) else None
  }

  /**
   * An entry parses exactly when it holds exactly one `=`; the name is the
   * text before it and the value the text after it, neither holding `=`.
   */
  lemma ParseEnvironmentStringSpec(entry: string)
    ensures ParseEnvironmentString(entry).Some? <==> Count(entry, '=') == 1
    ensures ParseEnvironmentString(entry).Some? ==>
              var (name, value) := ParseEnvironmentString(entry).value;
              && entry == name + "=" + value
              && '=' !in name && '=' !in value
  {
    if ParseEnvironmentString(entry).Some? {
      var v := Split(entry, '=');
      JoinOfSplit(entry, '=');
      assert Join(v[1..], '=') == v[1];
    }
  }

  /** Every `=`-free name and value come back from their `NAME=VALUE` entry. */
  lemma ParseOfEntry(name: string, value: string)
    requires '=' !in name && '=' !in value
    ensures ParseEnvironmentString(name + "=" + value) == Some((name, value))
  {
    SplitOfJoin(name, value, '=');
  }

  lemma {:induction false} CountWithout(s: string, c: char)
    requires c !in s
    ensures Count(s, c) == 0
    decreases |s|
  {
    if s != [] {
      assert s[0] != c && c !in s[1..];
      CountWithout(s[1..], c);
    }
  }

  lemma {:induction false} CountAtLeastOne(s: string, c: char, j: nat)
    requires j < |s| && s[j] == c
    ensures Count(s, c) >= 1
    decreases j
  {
    if j > 0 {
      CountAtLeastOne(s[1..], c, j - 1);
    }
  }

  lemma {:induction false} CountAtLeastTwo(s: string, c: char, i: nat, j: nat)
    requires i < j < |s| && s[i] == c && s[j] == c
    ensures Count(s, c) >= 2
    decreases i
  {
    if i == 0 {
      CountAtLeastOne(s[1..], c, j - 1);
    } else {
      CountAtLeastTwo(s[1..], c, i - 1, j - 1);
    }
  }

  /** Entries such as `=C:=C:\`, `PATH` and `A=B=C` are skipped. */
  lemma MalformedEntriesAreSkipped()
    ensures ParseEnvironmentString("=C:=C:\\") == None
    ensures ParseEnvironmentString("PATH") == None
    ensures ParseEnvironmentString("A=B=C") == None
    ensures ParseEnvironmentString("") == None
  {
    CountAtLeastTwo("=C:=C:\\", '=', 0, 3);
    ParseEnvironmentStringSpec("=C:=C:\\");
    CountWithout("PATH", '=');
    ParseEnvironmentStringSpec("PATH");
    CountAtLeastTwo("A=B=C", '=', 1, 3);
    ParseEnvironmentStringSpec("A=B=C");
  }

  // ---------------------------------------------------------------------------
  // The environment block
  // ---------------------------------------------------------------------------

  /** What `CreateEnvironmentBlock` hands over: at least two units, the last two of them NUL. */
  predicate WellFormedBlock(block: seq<u16>) {
    |block| >= 2 && block[|block| - 2] == 0 && block[|block| - 1] == 0
  }

  /** The position of the first NUL at or after `p`: at the latest the first unit of the final pair. */
  function NulFrom(block: seq<u16>, p: nat): (n: nat)
    requires WellFormedBlock(block) && p <= |block| - 2
    ensures p <= n <= |block| - 2 && block[n] == 0
    decreases |block| - p
  {
    if block[p] == 0 then p else NulFrom(block, p + 1)
  }

  /** No NUL comes between `p` and `NulFrom(block, p)`. */
  lemma {:induction false} NulFromIsFirst(block: seq<u16>, p: nat)
    requires WellFormedBlock(block) && p <= |block| - 2
    ensures forall j :: p <= j < NulFrom(block, p) ==> block[j] != 0
    decreases |block| - p
  {
    if block[p] != 0 {
      NulFromIsFirst(block, p + 1);
    }
  }

  /** A NUL with no NUL between `p` and it is the one `NulFrom` finds. */
  lemma NulFromAt(block: seq<u16>, p: nat, q: nat)
    requires WellFormedBlock(block) && p <= q <= |block| - 2 && block[q] == 0
    requires forall j :: p <= j < q ==> block[j] != 0
    ensures NulFrom(block, p) == q
  {
    NulFromIsFirst(block, p);
  }

  /**
   * The entries the walk visits from the entry starting at `p`, in block order
   * and without their NULs: that one always, then each one that starts with a
   * nonzero unit, until an entry starts with NUL.
   */
  function EntriesFrom(block: seq<u16>, p: nat): (es: seq<seq<u16>>)
    requires WellFormedBlock(block) && p <= |block| - 2
    ensures es != []
    decreases |block| - p
  {
    var n := NulFrom(block, p);
    if block[n + 1] == 0 then [block[p..n]]
    else [block[p..n]] + EntriesFrom(block, n + 1)
  }

  /** The entries of a whole block. */
  function Entries(block: seq<u16>): seq<seq<u16>>
    requires WellFormedBlock(block)
  {
    EntriesFrom(block, 0)
  }

  /** The entries hold no NUL: each ends where its terminator is. */
  lemma {:induction false} EntriesHaveNoNul(block: seq<u16>, p: nat)
    requires WellFormedBlock(block) && p <= |block| - 2
    ensures forall k :: 0 <= k < |EntriesFrom(block, p)| ==> 0 !in EntriesFrom(block, p)[k]
    decreases |block| - p
  {
    var n := NulFrom(block, p);
    var es := EntriesFrom(block, p);
    NulFromIsFirst(block, p);
    assert forall j :: 0 <= j < n - p ==> block[p..n][j] == block[p + j];
    assert 0 !in es[0];
    if block[n + 1] != 0 {
      var rest := EntriesFrom(block, n + 1);
      EntriesHaveNoNul(block, n + 1);
      assert es == [block[p..n]] + rest;
      assert forall k :: 1 <= k < |es| ==> es[k] == rest[k - 1];
    }
  }

  /** Entries written out: each followed by a NUL, and one more NUL at the end. */
  function EncodeBlock(es: seq<seq<u16>>): (block: seq<u16>)
    ensures |block| >= 1 && block[|block| - 1] == 0
    decreases |es|
  {
    if es == [] then [0] else es[0] + [0] + EncodeBlock(es[1..])
  }

  /** The entries a well-formed environment block can hold: NUL-free, and all but the first nonempty. */
  predicate EncodableEntries(es: seq<seq<u16>>) {
    && es != []
    && (forall k :: 0 <= k < |es| ==> 0 !in es[k])
    && (forall k :: 1 <= k < |es| ==> es[k] != [])
  }

  lemma EncodableTail(es: seq<seq<u16>>)
    requires EncodableEntries(es) && |es| > 1
    ensures EncodableEntries(es[1..])
    ensures es[1] != [] && es[1][0] != 0
  {
    assert forall k :: 0 <= k < |es[1..]| ==> es[1..][k] == es[k + 1];
    assert es[1][0] in es[1];
  }

  /** The entry from `p` to the NUL at `q` is the last one when another NUL follows. */
  lemma EntriesFromLast(b: seq<u16>, p: nat, q: nat)
    requires WellFormedBlock(b) && p <= |b| - 2 && NulFrom(b, p) == q && b[q + 1] == 0
    ensures EntriesFrom(b, p) == [b[p..q]]
  {
  }

  /** The entry from `p` to the NUL at `q` is followed by the entries from `q + 1` when no NUL follows. */
  lemma EntriesFromStep(b: seq<u16>, p: nat, q: nat)
    requires WellFormedBlock(b) && p <= |b| - 2 && NulFrom(b, p) == q && b[q + 1] != 0
    ensures q + 1 <= |b| - 2
    ensures EntriesFrom(b, p) == [b[p..q]] + EntriesFrom(b, q + 1)
  {
  }

  lemma ShiftWellFormed(pre: seq<u16>, c: seq<u16>)
    requires WellFormedBlock(c)
    ensures WellFormedBlock(pre + c)
  {
    var b := pre + c;
    assert b[|b| - 2] == c[|c| - 2];
    assert b[|b| - 1] == c[|c| - 1];
  }

  lemma SliceShift(pre: seq<u16>, c: seq<u16>, i: nat, j: nat)
    requires i <= j <= |c|
    ensures (pre + c)[|pre| + i..|pre| + j] == c[i..j]
  {
    var b := pre + c;
    assert b[|pre| + i..|pre| + j] == b[|pre|..][i..j];
    assert b[|pre|..] == c;
  }

  /** Text in front of a block moves its NULs by its length. */
  lemma {:induction false} NulFromShift(pre: seq<u16>, c: seq<u16>, k: nat)
    requires WellFormedBlock(c) && k <= |c| - 2
    ensures WellFormedBlock(pre + c)
    ensures NulFrom(pre + c, |pre| + k) == |pre| + NulFrom(c, k)
    decreases |c| - k
  {
    ShiftWellFormed(pre, c);
    assert (pre + c)[|pre| + k] == c[k];
    if c[k] != 0 {
      NulFromShift(pre, c, k + 1);
    }
  }

  /** Shifting the last entry of a block. */
  lemma ShiftLast(pre: seq<u16>, c: seq<u16>, k: nat)
    requires WellFormedBlock(c) && k <= |c| - 2 && c[NulFrom(c, k) + 1] == 0
    ensures WellFormedBlock(pre + c)
    ensures EntriesFrom(pre + c, |pre| + k) == EntriesFrom(c, k)
  {
    var b := pre + c;
    var n := NulFrom(c, k);
    NulFromShift(pre, c, k);
    assert b[|pre| + n + 1] == c[n + 1];
    EntriesFromLast(b, |pre| + k, |pre| + n);
    SliceShift(pre, c, k, n);
    EntriesFromLast(c, k, n);
  }

  /** Shifting an entry that another follows: the same entry, then the shifted rest. */
  lemma ShiftStep(pre: seq<u16>, c: seq<u16>, k: nat)
    requires WellFormedBlock(c) && k <= |c| - 2 && c[NulFrom(c, k) + 1] != 0
    ensures WellFormedBlock(pre + c) && NulFrom(c, k) + 1 <= |c| - 2
    ensures EntriesFrom(pre + c, |pre| + k) == [c[k..NulFrom(c, k)]] + EntriesFrom(pre + c, |pre| + (NulFrom(c, k) + 1))
  {
    var b := pre + c;
    var n := NulFrom(c, k);
    NulFromShift(pre, c, k);
    assert b[|pre| + n + 1] == c[n + 1];
    EntriesFromStep(b, |pre| + k, |pre| + n);
    SliceShift(pre, c, k, n);
  }

  /** Text in front of a block does not change the entries read after it. */
  lemma {:induction false} EntriesFromShift(pre: seq<u16>, c: seq<u16>, k: nat)
    requires WellFormedBlock(c) && k <= |c| - 2
    ensures WellFormedBlock(pre + c)
    ensures EntriesFrom(pre + c, |pre| + k) == EntriesFrom(c, k)
    decreases |c| - k
  {
    var n := NulFrom(c, k);
    if c[n + 1] == 0 {
      ShiftLast(pre, c, k);
    } else {
      ShiftStep(pre, c, k);
      EntriesFromShift(pre, c, n + 1);
      EntriesFromStep(c, k, n);
    }
  }

  /** An encoded block starts with its first entry and the NUL after it. */
  lemma HeadOfEncoded(es: seq<seq<u16>>)
    requires EncodableEntries(es) && WellFormedBlock(EncodeBlock(es))
    ensures NulFrom(EncodeBlock(es), 0) == |es[0]|
    ensures EncodeBlock(es)[0..|es[0]|] == es[0]
  {
    var c := EncodeBlock(es);
    var e := es[0];
    forall j | 0 <= j < |e|
      ensures c[j] != 0
    {
      assert c[j] == e[j];
      assert e[j] in e;
    }
    assert c[|e|] == 0;
    NulFromAt(c, 0, |e|);
    assert forall j :: 0 <= j < |e| ==> c[0..|e|][j] == e[j];
  }

  /** The walk reads back exactly the entries a block was written from. */
  lemma {:induction false} EntriesOfEncodeBlock(es: seq<seq<u16>>)
    requires EncodableEntries(es)
    ensures WellFormedBlock(EncodeBlock(es))
    ensures Entries(EncodeBlock(es)) == es
    decreases |es|
  {
    var c := EncodeBlock(es);
    var tail := EncodeBlock(es[1..]);
    var head := es[0] + [0];
    assert c == head + tail;
    if |es| == 1 {
      assert tail == [0];
      assert WellFormedBlock(c);
      HeadOfEncoded(es);
      EntriesFromLast(c, 0, |es[0]|);
    } else {
      EncodableTail(es);
      EntriesOfEncodeBlock(es[1..]);
      EntriesFromShift(head, tail, 0);
      assert tail[0] == es[1][0] by {
        assert tail == es[1..][0] + [0] + EncodeBlock(es[1..][1..]);
      }
      HeadOfEncoded(es);
      assert c[|es[0]| + 1] == tail[0];
      EntriesFromStep(c, 0, |es[0]|);
      assert [es[0]] + es[1..] == es;
    }
  }

  // ---------------------------------------------------------------------------
  // Applying the entries to the environment
  // ---------------------------------------------------------------------------

  /**
   * The environment after applying entries, and whether every entry could be
   * decoded; an undecodable entry ends the walk, as `from_utf16(..).unwrap()`
   * panics there, and the environment stays as it was at that point.
   */
  datatype Applied = Applied(vars: map<string, string>, completed: bool)

  /** The variable an entry sets, if it is valid UTF-16 and of the form `NAME=VALUE`. */
  function EntryAssignment(entry: seq<u16>): Option<(string, string)> {
    match DecodeUtf16(entry)
    case None => None
    case Some(s) => ParseEnvironmentString(s)
  }

  /** One decoded entry applied: a `NAME=VALUE` entry sets the variable, anything else is skipped. */
  function Assign(vars: map<string, string>, entry: string): map<string, string> {
    match ParseEnvironmentString(entry)
    case None => vars
    case Some((name, value)) => vars[name := value]
  }

  function ApplyEntries(vars: map<string, string>, es: seq<seq<u16>>): Applied
    decreases |es|
  {
    if es == [] then Applied(vars, true)
    else if DecodeUtf16(es[0]).None? then Applied(vars, false)
    else ApplyEntries(Assign(vars, DecodeUtf16(es[0]).value), es[1..])
  }

  predicate Assigns(entry: seq<u16>, name: string) {
    EntryAssignment(entry).Some? && EntryAssignment(entry).value.0 == name
  }

  /** The walk completes exactly when every entry is valid UTF-16. */
  lemma {:induction false} ApplyEntriesCompletes(vars: map<string, string>, es: seq<seq<u16>>)
    ensures ApplyEntries(vars, es).completed <==> forall k :: 0 <= k < |es| ==> DecodeUtf16(es[k]).Some?
    decreases |es|
  {
    if es != [] && DecodeUtf16(es[0]).Some? {
      ApplyEntriesCompletes(Assign(vars, DecodeUtf16(es[0]).value), es[1..]);
      assert forall k :: 1 <= k < |es| ==> es[k] == es[1..][k - 1];
    }
  }

  /** Variables that no entry assigns are neither removed nor changed. */
  lemma {:induction false} UnassignedVariablesKept(vars: map<string, string>, es: seq<seq<u16>>, name: string)
    requires forall k :: 0 <= k < |es| ==> !Assigns(es[k], name)
    ensures name in ApplyEntries(vars, es).vars <==> name in vars
    ensures name in vars ==> ApplyEntries(vars, es).vars[name] == vars[name]
    decreases |es|
  {
    if es != [] && DecodeUtf16(es[0]).Some? {
      assert !Assigns(es[0], name);
      assert forall k :: 0 <= k < |es[1..]| ==> es[1..][k] == es[k + 1];
      UnassignedVariablesKept(Assign(vars, DecodeUtf16(es[0]).value), es[1..], name);
    }
  }

  /** The last entry that assigns a variable decides its value; every entry before it is overwritten. */
  lemma {:induction false} LastAssignmentWins(vars: map<string, string>, es: seq<seq<u16>>, k: nat)
    requires k < |es| && EntryAssignment(es[k]).Some?
    requires forall j :: k < j < |es| ==> !Assigns(es[j], EntryAssignment(es[k]).value.0)
    requires forall j :: 0 <= j < k ==> DecodeUtf16(es[j]).Some?
    ensures var (name, value) := EntryAssignment(es[k]).value;
            name in ApplyEntries(vars, es).vars && ApplyEntries(vars, es).vars[name] == value
    decreases k
  {
    var (name, value) := EntryAssignment(es[k]).value;
    assert forall j :: 0 <= j < |es[1..]| ==> es[1..][j] == es[j + 1];
    var next := Assign(vars, DecodeUtf16(es[0]).value);
    if k == 0 {
      assert next == vars[name := value];
      UnassignedVariablesKept(next, es[1..], name);
    } else {
      LastAssignmentWins(next, es[1..], k - 1);
    }
  }

  // ---------------------------------------------------------------------------
  // The process environment
  // ---------------------------------------------------------------------------

  /** The current process's environment variables, as `SetEnvironmentVariableW` changes them. */
  class ProcessEnvironment {
    var vars: map<string, string>

    constructor (vars: map<string, string>)
      ensures this.vars == vars
    {
      this.vars := vars;
    }

    /**
     * `set_environment_variable`: the UTF-16 name and value, each with one
     * terminating 0 pushed on, and the variable set.
     */
    method SetEnvironmentVariable(name: string, value: string) returns (nameBuffer: seq<u16>, valueBuffer: seq<u16>)
      modifies this
      ensures nameBuffer == EncodeUtf16(name) + [0]
      ensures valueBuffer == EncodeUtf16(value) + [0]
      ensures vars == old(vars)[name := value]
    {
      nameBuffer := EncodeUtf16(name);
      valueBuffer := EncodeUtf16(value);
      nameBuffer := nameBuffer + [0];
      valueBuffer := valueBuffer + [0];
      vars := vars[name := value];
    }

    /** One decoded entry: if it parses as `NAME=VALUE`, the variable is set. */
    method ApplyEntry(entry: string)
      modifies this
      ensures vars == Assign(old(vars), entry)
    {
      var parsed := ParseEnvironmentString(entry);
      if parsed.Some? {
        var _, _ := SetEnvironmentVariable(parsed.value.0, parsed.value.1);
      }
    }

    /**
     * The walk at the NUL ending the entry that starts at `ptr`: the entry is
     * decoded and applied, and `next` is where the following entry starts.
     */
    method EndOfEntry(block: seq<u16>, ptr: nat, i: nat) returns (decodable: bool, next: nat)
      requires WellFormedBlock(block) && ptr <= |block| - 2
      requires ptr + i <= NulFrom(block, ptr) && block[ptr + i] == 0
      modifies this
      ensures next == ptr + i + 1 && next <= |block| - 1
      ensures !decodable ==> Applied(vars, false) == ApplyEntries(old(vars), EntriesFrom(block, ptr))
      ensures decodable && block[next] == 0 ==> Applied(vars, true) == ApplyEntries(old(vars), EntriesFrom(block, ptr))
      ensures decodable && block[next] != 0 ==>
                && next <= |block| - 2
                && ApplyEntries(vars, EntriesFrom(block, next)) == ApplyEntries(old(vars), EntriesFrom(block, ptr))
    {
      next := ptr + i + 1;
      ghost var before := vars;
      var decoded := DecodeUtf16(block[ptr..ptr + i]);
      if decoded.None? {
        StopAtUndecodable(before, block, ptr, i);
        return false, next;
      }
      ApplyEntry(decoded.value);
      decodable := true;
      if block[next] == 0 {
        StopAtLast(before, vars, block, ptr, i);
      } else {
        GoOnAfter(before, vars, block, ptr, i);
      }
    }

    /**
     * The loop of `update_current_environment` over a block: `ptr` is the
     * start of the current entry and `i` the offset being read; at each NUL
     * the entry is decoded, parsed and applied, and a NUL right after it ends
     * the walk. Returns false where `from_utf16(..).unwrap()` would panic.
     */
    method UpdateCurrentEnvironment(block: seq<u16>) returns (completed: bool)
      requires WellFormedBlock(block)
      modifies this
      ensures Applied(vars, completed) == ApplyEntries(old(vars), Entries(block))
    {
      var ptr: nat := 0;
      var i: nat := 0;
      while true
        invariant ptr <= |block| - 2
        invariant ptr + i <= NulFrom(block, ptr)
        invariant ApplyEntries(vars, EntriesFrom(block, ptr)) == ApplyEntries(old(vars), Entries(block))
        decreases |block| - (ptr + i)
      {
        var wb := block[ptr + i];
        if wb == 0 {
          var decodable, next := EndOfEntry(block, ptr, i);
          if !decodable {
            return false;
          }
          ptr := next;
          i := 0;
          if block[ptr] == 0 {
            break;
          }
        }
        i := i + 1;
      }
      completed := true;
    }
  }

  /** Applying entries starts with the first: it stops there if it cannot be decoded, and goes on after it otherwise. */
  lemma ApplyFirstEntry(vars: map<string, string>, e: seq<u16>, rest: seq<seq<u16>>)
    ensures DecodeUtf16(e).None? ==> ApplyEntries(vars, [e] + rest) == Applied(vars, false)
    ensures DecodeUtf16(e).Some? ==> ApplyEntries(vars, [e] + rest) == ApplyEntries(Assign(vars, DecodeUtf16(e).value), rest)
  {
    assert ([e] + rest)[0] == e;
    assert ([e] + rest)[1..] == rest;
  }

  /**
   * Where the walk meets a NUL at offset `i` of the entry starting at `ptr`:
   * that entry ends there, and the walk stops or goes on after it.
   */
  lemma EntryAt(block: seq<u16>, ptr: nat, i: nat)
    requires WellFormedBlock(block) && ptr <= |block| - 2
    requires ptr + i <= NulFrom(block, ptr) && block[ptr + i] == 0
    ensures NulFrom(block, ptr) == ptr + i
    ensures block[ptr + i + 1] == 0 ==> EntriesFrom(block, ptr) == [block[ptr..ptr + i]] + []
    ensures block[ptr + i + 1] != 0 ==>
              && ptr + i + 1 <= |block| - 2
              && EntriesFrom(block, ptr) == [block[ptr..ptr + i]] + EntriesFrom(block, ptr + i + 1)
  {
    NulFromIsFirst(block, ptr);
  }

  /** An entry that is not valid UTF-16 stops the walk with the environment as it was. */
  lemma StopAtUndecodable(vars: map<string, string>, block: seq<u16>, ptr: nat, i: nat)
    requires WellFormedBlock(block) && ptr <= |block| - 2
    requires ptr + i <= NulFrom(block, ptr) && block[ptr + i] == 0
    requires DecodeUtf16(block[ptr..ptr + i]).None?
    ensures ApplyEntries(vars, EntriesFrom(block, ptr)) == Applied(vars, false)
  {
    EntryAt(block, ptr, i);
    if block[ptr + i + 1] == 0 {
      ApplyFirstEntry(vars, block[ptr..ptr + i], []);
    } else {
      ApplyFirstEntry(vars, block[ptr..ptr + i], EntriesFrom(block, ptr + i + 1));
    }
  }

  /** A decodable entry followed by a second NUL is the last one applied. */
  lemma StopAtLast(vars: map<string, string>, after: map<string, string>, block: seq<u16>, ptr: nat, i: nat)
    requires WellFormedBlock(block) && ptr <= |block| - 2
    requires ptr + i <= NulFrom(block, ptr) && block[ptr + i] == 0
    requires DecodeUtf16(block[ptr..ptr + i]).Some? && after == Assign(vars, DecodeUtf16(block[ptr..ptr + i]).value)
    requires block[ptr + i + 1] == 0
    ensures ApplyEntries(vars, EntriesFrom(block, ptr)) == Applied(after, true)
  {
    EntryAt(block, ptr, i);
    ApplyFirstEntry(vars, block[ptr..ptr + i], []);
  }

  /** A decodable entry followed by another one: the walk goes on from the unit after its NUL. */
  lemma GoOnAfter(vars: map<string, string>, after: map<string, string>, block: seq<u16>, ptr: nat, i: nat)
    requires WellFormedBlock(block) && ptr <= |block| - 2
    requires ptr + i <= NulFrom(block, ptr) && block[ptr + i] == 0
    requires DecodeUtf16(block[ptr..ptr + i]).Some? && after == Assign(vars, DecodeUtf16(block[ptr..ptr + i]).value)
    requires block[ptr + i + 1] != 0
    ensures ptr + i + 1 <= |block| - 2
    ensures ApplyEntries(vars, EntriesFrom(block, ptr)) == ApplyEntries(after, EntriesFrom(block, ptr + i + 1))
  {
    EntryAt(block, ptr, i);
    ApplyFirstEntry(vars, block[ptr..ptr + i], EntriesFrom(block, ptr + i + 1));
  }

  /** After the refresh, each variable holds the value of the last entry of the block that assigns it. */
  lemma RefreshLastAssignmentWins(vars: map<string, string>, block: seq<u16>, k: nat)
    requires WellFormedBlock(block)
    requires k < |Entries(block)| && EntryAssignment(Entries(block)[k]).Some?
    requires forall j :: k < j < |Entries(block)| ==> !Assigns(Entries(block)[j], EntryAssignment(Entries(block)[k]).value.0)
    requires forall j :: 0 <= j < k ==> DecodeUtf16(Entries(block)[j]).Some?
    ensures var (name, value) := EntryAssignment(Entries(block)[k]).value;
            name in ApplyEntries(vars, Entries(block)).vars && ApplyEntries(vars, Entries(block)).vars[name] == value
  {
    LastAssignmentWins(vars, Entries(block), k);
  }

  /** The buffers handed to `SetEnvironmentVariableW` are C strings that read back as the name and the value. */
  lemma BuffersAreTerminatedStrings(s: string)
    requires '\0' !in s
    ensures var buffer := EncodeUtf16(s) + [0];
            && buffer[|buffer| - 1] == 0
            && 0 !in buffer[..|buffer| - 1]
            && DecodeUtf16(buffer[..|buffer| - 1]) == Some(s)
  {
    var buffer := EncodeUtf16(s) + [0];
    assert buffer[..|buffer| - 1] == EncodeUtf16(s);
    EncodingHasNoNul(s);
    DecodeOfEncode(s);
  }
}
