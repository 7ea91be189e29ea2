/**
  The Python part of the corpus extractor: the import instructions of a
  compiled module, folded into `name`, `name:item` and `name:*` entries.
  The compiler (`dis.get_instructions`) is not modelled: its instructions
  are the input.
 */
module PyImports {
  import opened Wrappers
  import opened Text

  /** One instruction as `dis` describes it: operation name and argument value. */
  datatype Instr = Instr(opname: string, argval: string)

  /** `[i for i in instructions if 'IMPORT' in i.opname]`. */
  function ImportInstrs(instrs: seq<Instr>): (r: seq<Instr>)
    ensures forall i :: 0 <= i < |r| ==> Contains(r[i].opname, "IMPORT") && r[i] in instrs
    ensures forall i :: 0 <= i < |instrs| && Contains(instrs[i].opname, "IMPORT") ==> instrs[i] in r
    decreases |instrs|
  {
    if |instrs| == 0 then []
    else
      var rest := ImportInstrs(instrs[1..]);
      assert forall x :: x in instrs[1..] ==> x in instrs;
      assert forall i :: 1 <= i < |instrs| ==> instrs[i] == instrs[1..][i - 1];
      if Contains(instrs[0].opname, "IMPORT") then [instrs[0]] + rest else rest
  }

  /** The filter keeps order: filtering a concatenation concatenates the filtered parts. */
  lemma {:induction false} ImportInstrsAppend(a: seq<Instr>, b: seq<Instr>)
    ensures ImportInstrs(a + b) == ImportInstrs(a) + ImportInstrs(b)
    decreases |a|
  {
    if |a| == 0 {
      assert a + b == b;
    } else {
      assert (a + b)[0] == a[0];
      assert (a + b)[1..] == a[1..] + b;
      ImportInstrsAppend(a[1..], b);
    }
  }

  /** One instruction is kept, once, exactly when its opname contains `IMPORT`. */
  lemma ImportInstrsSingle(x: Instr)
    ensures ImportInstrs([x]) == if Contains(x.opname, "IMPORT") then [x] else []
  {
    assert [x][1..] == [];
  }

  predicate IsName(i: Instr) { i.opname == "IMPORT_NAME" }

  predicate IsStar(i: Instr) { i.opname == "IMPORT_STAR" }

  /** What follows the colon in the entry of an instruction other than IMPORT_NAME. */
  function Item(i: Instr): string {
    if IsStar(i) then "*" else i.argval
  }

  // ---------------------------------------------------------------- the reference definition

  /** How many instructions other than IMPORT_NAME open `xs`. */
  function LeadingFollowers(xs: seq<Instr>): (k: nat)
    ensures k <= |xs|
    decreases |xs|
  {
    if |xs| == 0 || IsName(xs[0]) then 0 else LeadingFollowers(xs[1..]) + 1
  }

  /** The leading followers are not IMPORT_NAME, and an IMPORT_NAME or the end comes next. */
  lemma {:induction false} LeadingFollowersSpec(xs: seq<Instr>)
    ensures forall j :: 0 <= j < LeadingFollowers(xs) ==> !IsName(xs[j])
    ensures LeadingFollowers(xs) == |xs| || IsName(xs[LeadingFollowers(xs)])
    decreases |xs|
  {
    if |xs| > 0 && !IsName(xs[0]) {
      LeadingFollowersSpec(xs[1..]);
      assert forall j :: 1 <= j < LeadingFollowers(xs) ==> xs[j] == xs[1..][j - 1];
    }
  }

  /** The count of leading followers is the only `k` with its two properties. */
  lemma {:induction false} LeadingFollowersIs(xs: seq<Instr>, k: nat)
    requires k <= |xs| && (forall j :: 0 <= j < k ==> !IsName(xs[j])) && (k == |xs| || IsName(xs[k]))
    ensures LeadingFollowers(xs) == k
    decreases |xs|
  {
    if |xs| > 0 && !IsName(xs[0]) {
      assert forall j :: 0 <= j < k - 1 ==> xs[1..][j] == xs[j + 1];
      LeadingFollowersIs(xs[1..], k - 1);
    }
  }

  /** One `name:item` entry per instruction of `fs`, in order. */
  function Followed(name: string, fs: seq<Instr>): (r: seq<string>)
    ensures |r| == |fs|
    decreases |fs|
  {
    if |fs| == 0 then [] else Followed(name, fs[..|fs| - 1]) + [name + ":" + Item(fs[|fs| - 1])]
  }

  /** One entry per follower, in order: the name, a colon and the follower's item. */
  lemma {:induction false} FollowedEntries(name: string, fs: seq<Instr>)
    ensures forall i :: 0 <= i < |fs| ==> Followed(name, fs)[i] == name + ":" + Item(fs[i])
    decreases |fs|
  {
    if |fs| > 0 {
      var init := fs[..|fs| - 1];
      FollowedEntries(name, init);
      assert forall i :: 0 <= i < |init| ==> init[i] == fs[i];
    }
  }

  /** The entries of one IMPORT_NAME with the instructions `fs` that follow it before the next one. */
  function GroupEntries(name: string, fs: seq<Instr>): (r: seq<string>)
  {
    if |fs| == 0 then [name] else Followed(name, fs)
  }

  /**
    The entries the folding loop is meant to produce: every IMPORT_NAME
    gives its bare name when no other import instruction follows it, and
    otherwise one `name:item` entry per following instruction. A sequence
    that does not start with IMPORT_NAME has no value: the loop raises.
   */
  function Grouped(xs: seq<Instr>): (r: Option<seq<string>>)
    decreases |xs|
  {
    if |xs| == 0 then Some([])
    else if !IsName(xs[0]) then None
    else
      var k := LeadingFollowers(xs[1..]);
      match Grouped(xs[1 + k..])
      case None => None
      case Some(rest) => Some(GroupEntries(xs[0].argval, xs[1..1 + k]) + rest)
  }

  /** The argument of the last IMPORT_NAME. */
  function LastName(xs: seq<Instr>): string
    requires |xs| > 0 && IsName(xs[0])
    decreases |xs|
  {
    if IsName(xs[|xs| - 1]) then xs[|xs| - 1].argval else LastName(xs[..|xs| - 1])
  }

  lemma {:induction false} LastNameOfGroup(xs: seq<Instr>)
    requires |xs| > 0 && IsName(xs[0]) && forall j :: 1 <= j < |xs| ==> !IsName(xs[j])
    ensures LastName(xs) == xs[0].argval
    decreases |xs|
  {
    if |xs| > 1 {
      LastNameOfGroup(xs[..|xs| - 1]);
    }
  }

  lemma {:induction false} LastNameAppend(a: seq<Instr>, b: seq<Instr>)
    requires |a| > 0 && IsName(a[0]) && |b| > 0 && IsName(b[0])
    ensures LastName(a + b) == LastName(b)
    decreases |b|
  {
    var ab := a + b;
    if !IsName(b[|b| - 1]) {
      assert |b| > 1;
      assert ab[..|ab| - 1] == a + b[..|b| - 1];
      LastNameAppend(a, b[..|b| - 1]);
    }
  }

  /** A sequence that starts with IMPORT_NAME has entries, at least one. */
  lemma {:induction false} GroupedStartsWithName(xs: seq<Instr>)
    requires |xs| > 0 && IsName(xs[0])
    ensures Grouped(xs).Some? && |Grouped(xs).value| > 0
    decreases |xs|
  {
    var k := LeadingFollowers(xs[1..]);
    if 1 + k < |xs| {
      LeadingFollowersSpec(xs[1..]);
      assert xs[1 + k..][0] == xs[1..][k];
      GroupedStartsWithName(xs[1 + k..]);
    }
  }

  /** Grouped, unfolded once at a given split into name, followers and the rest. */
  lemma GroupedUnfold(y: Instr, fs: seq<Instr>, rest: seq<Instr>)
    requires IsName(y) && (forall j :: 0 <= j < |fs| ==> !IsName(fs[j])) && (|rest| == 0 || IsName(rest[0]))
    ensures Grouped([y] + fs + rest) ==
      (if Grouped(rest).None? then None else Some(GroupEntries(y.argval, fs) + Grouped(rest).value))
  {
    var xs := [y] + fs + rest;
    assert xs[1..] == fs + rest;
    assert forall j :: 0 <= j < |fs| ==> (fs + rest)[j] == fs[j];
    assert |rest| > 0 ==> (fs + rest)[|fs|] == rest[0];
    LeadingFollowersIs(fs + rest, |fs|);
    assert xs[1 + |fs|..] == rest;
    assert xs[1..1 + |fs|] == fs;
  }

  lemma GroupedSingle(x: Instr)
    requires IsName(x)
    ensures Grouped([x]) == Some([x.argval])
  {
    GroupedOneGroup([x], x, []);
  }

  /** A sequence that is one group has that group's entries. */
  lemma GroupedOneGroup(xs: seq<Instr>, y: Instr, fs: seq<Instr>)
    requires xs == [y] + fs && IsName(y) && forall j :: 0 <= j < |fs| ==> !IsName(fs[j])
    ensures Grouped(xs) == Some(GroupEntries(y.argval, fs))
  {
    var e := GroupEntries(y.argval, fs);
    GroupedUnfold(y, fs, []);
    assert Grouped([]) == Some([]);
    assert Grouped([y] + fs + []) == Some(e + []);
    assert e + [] == e;
    assert [y] + fs + [] == xs;
  }

  /** Appending an IMPORT_NAME to a single group starts a new group. */
  lemma GroupedSnocLastName(y: Instr, fs: seq<Instr>, x: Instr)
    requires IsName(y) && (forall j :: 0 <= j < |fs| ==> !IsName(fs[j])) && IsName(x)
    ensures Grouped([y] + fs + [x]) == Some(GroupEntries(y.argval, fs) + [x.argval])
  {
    GroupedUnfold(y, fs, [x]);
    GroupedSingle(x);
  }

  /** One more follower adds one entry to a group, replacing the bare name. */
  lemma GroupEntriesSnoc(name: string, fs: seq<Instr>, x: Instr)
    ensures GroupEntries(name, fs + [x]) ==
      (if |fs| == 0 then [] else GroupEntries(name, fs)) + [name + ":" + Item(x)]
  {
    assert (fs + [x])[..|fs|] == fs;
  }

  /** Appending another instruction to a single group extends that group. */
  lemma GroupedSnocLastOther(y: Instr, fs: seq<Instr>, x: Instr)
    requires IsName(y) && (forall j :: 0 <= j < |fs| ==> !IsName(fs[j])) && !IsName(x)
    ensures Grouped([y] + fs + [x]) ==
      Some((if |fs| == 0 then [] else GroupEntries(y.argval, fs)) + [y.argval + ":" + Item(x)])
  {
    var fx := fs + [x];
    forall j | 0 <= j < |fx| ensures !IsName(fx[j]) {
      if j < |fs| {
        assert fx[j] == fs[j];
      }
    }
    GroupedOneGroup([y] + fs + [x], y, fx);
    GroupEntriesSnoc(y.argval, fs, x);
  }

  /** Appending beyond the first group: the other case of `GroupedSnoc`. */
  lemma GroupedSnocRest(y: Instr, fs: seq<Instr>, rest: seq<Instr>, x: Instr, g: seq<string>, g': seq<string>)
    requires IsName(y) && (forall j :: 0 <= j < |fs| ==> !IsName(fs[j])) && |rest| > 0 && IsName(rest[0])
    requires Grouped(rest) == Some(g) && Grouped(rest + [x]) == Some(g')
    ensures Grouped([y] + fs + rest) == Some(GroupEntries(y.argval, fs) + g)
    ensures Grouped([y] + fs + rest + [x]) == Some(GroupEntries(y.argval, fs) + g')
  {
    GroupedUnfold(y, fs, rest);
    GroupedUnfold(y, fs, rest + [x]);
    assert [y] + fs + (rest + [x]) == [y] + fs + rest + [x];
  }

  /**
    The entries `g` after one more instruction `x`, as the loop body changes
    them: an IMPORT_NAME appends its name; any other instruction appends
    `last:item`, first dropping the bare name when it directly follows the
    IMPORT_NAME (`afterName`).
   */
  function Extend(g: seq<string>, last: string, afterName: bool, x: Instr): seq<string>
    requires |g| > 0
  {
    if IsName(x) then g + [x.argval]
    else (if afterName then g[..|g| - 1] else g) + [last + ":" + Item(x)]
  }

  lemma ExtendPrefix(e: seq<string>, g: seq<string>, last: string, afterName: bool, x: Instr)
    requires |g| > 0
    ensures e + Extend(g, last, afterName, x) == Extend(e + g, last, afterName, x)
  {
    assert (e + g)[..|e + g| - 1] == e + g[..|g| - 1];
  }

  /** Appending to a sequence that is one group. */
  lemma GroupedSnocOneGroup(y: Instr, fs: seq<Instr>, x: Instr)
    requires IsName(y) && forall j :: 0 <= j < |fs| ==> !IsName(fs[j])
    ensures Grouped([y] + fs + [x]) ==
      Some(Extend(GroupEntries(y.argval, fs), LastName([y] + fs), IsName(([y] + fs)[|fs|]), x))
  {
    assert LastName([y] + fs) == y.argval by {
      LastNameOfGroup([y] + fs);
    }
    assert IsName(([y] + fs)[|fs|]) <==> |fs| == 0;
    if IsName(x) {
      GroupedSnocLastName(y, fs, x);
    } else {
      GroupedSnocLastOther(y, fs, x);
    }
  }

  /** `GroupedSnoc` for a sequence that is one group. */
  lemma GroupedSnocFirst(xs: seq<Instr>, x: Instr, y: Instr, fs: seq<Instr>)
    requires xs == [y] + fs && IsName(y) && forall j :: 0 <= j < |fs| ==> !IsName(fs[j])
    ensures Grouped(xs).Some? && |Grouped(xs).value| > 0
    ensures Grouped(xs + [x]) == Some(Extend(Grouped(xs).value, LastName(xs), IsName(xs[|xs| - 1]), x))
  {
    assert xs + [x] == [y] + fs + [x];
    GroupedOneGroup(xs, y, fs);
    GroupedSnocOneGroup(y, fs, x);
  }

  /** `GroupedSnoc` for a group followed by more, given `GroupedSnoc` for the rest. */
  lemma GroupedSnocLater(xs: seq<Instr>, x: Instr, y: Instr, fs: seq<Instr>, rest: seq<Instr>)
    requires xs == [y] + fs + rest && IsName(y) && forall j :: 0 <= j < |fs| ==> !IsName(fs[j])
    requires |rest| > 0 && IsName(rest[0]) && Grouped(rest).Some? && |Grouped(rest).value| > 0
    requires Grouped(rest + [x]) == Some(Extend(Grouped(rest).value, LastName(rest), IsName(rest[|rest| - 1]), x))
    ensures Grouped(xs).Some? && |Grouped(xs).value| > 0
    ensures Grouped(xs + [x]) == Some(Extend(Grouped(xs).value, LastName(xs), IsName(xs[|xs| - 1]), x))
  {
    var g := Grouped(rest).value;
    var last := LastName(rest);
    var b := IsName(rest[|rest| - 1]);
    var e := GroupEntries(y.argval, fs);
    assert xs + [x] == [y] + fs + rest + [x];
    GroupedSnocRest(y, fs, rest, x, g, Extend(g, last, b, x));
    assert LastName(xs) == last by {
      LastNameAppend([y] + fs, rest);
    }
    assert xs[|xs| - 1] == rest[|rest| - 1];
    ExtendPrefix(e, g, last, b, x);
  }

  /** One more instruction changes the entries as the loop body does. */
  lemma {:induction false} GroupedSnoc(xs: seq<Instr>, x: Instr)
    requires |xs| > 0 && IsName(xs[0])
    ensures Grouped(xs).Some? && |Grouped(xs).value| > 0
    ensures Grouped(xs + [x]) == Some(Extend(Grouped(xs).value, LastName(xs), IsName(xs[|xs| - 1]), x))
    decreases |xs|
  {
    var k := LeadingFollowers(xs[1..]);
    var y := xs[0];
    var fs := xs[1..1 + k];
    var rest := xs[1 + k..];
    assert xs == [y] + fs + rest;
    assert (forall j :: 0 <= j < |fs| ==> !IsName(fs[j])) && (|rest| == 0 || IsName(rest[0])) by {
      LeadingFollowersSpec(xs[1..]);
      assert forall j :: 0 <= j < |fs| ==> fs[j] == xs[1..][j];
    }
    if |rest| == 0 {
      assert xs == [y] + fs;
      GroupedSnocFirst(xs, x, y, fs);
    } else {
      GroupedStartsWithName(rest);
      GroupedSnoc(rest, x);
      GroupedSnocLater(xs, x, y, fs, rest);
    }
  }

  // ---------------------------------------------------------------- the loop

  /** The variables of the folding loop. */
  datatype FoldState = FoldState(imports: seq<string>, lastimp: Option<string>, popped: bool)

  /**
    One pass of the loop body. `None` where Python raises: `imports.pop()`
    on the empty list, or `lastimp + ...` while `lastimp` is still `None`.
   */
  function FoldStep(st: FoldState, instr: Instr): Option<FoldState>
  {
    if IsName(instr) then Some(FoldState(st.imports + [instr.argval], Some(instr.argval), false))
    else if !st.popped && |st.imports| == 0 then None
    else if st.lastimp.None? then None
    else
      var kept := if st.popped then st.imports else st.imports[..|st.imports| - 1];
      Some(FoldState(kept + [st.lastimp.value + ":" + Item(instr)], st.lastimp, true))
  }

  /** The loop state after the instructions `xs`, or `None` once the loop has raised. */
  function Fold(xs: seq<Instr>): Option<FoldState>
    decreases |xs|
  {
    if |xs| == 0 then Some(FoldState([], None, false))
    else
      match Fold(xs[..|xs| - 1])
      case None => None
      case Some(st) => FoldStep(st, xs[|xs| - 1])
  }

  /** What `FoldIsGrouped` states about a nonempty `xs`. */
  ghost predicate FoldMatches(xs: seq<Instr>)
    requires |xs| > 0
  {
    (Fold(xs).None? <==> Grouped(xs).None?)
    && (Fold(xs).Some? ==> (IsName(xs[0]) &&
      Fold(xs).value == FoldState(Grouped(xs).value, Some(LastName(xs)), !IsName(xs[|xs| - 1]))))
  }

  lemma FoldMatchesSingle(x: Instr)
    ensures FoldMatches([x])
  {
    assert [x][..0] == [];
    if IsName(x) {
      GroupedSingle(x);
    }
  }

  /** The last IMPORT_NAME after one more instruction. */
  lemma LastNameSnoc(p: seq<Instr>, x: Instr)
    requires |p| > 0 && IsName(p[0])
    ensures LastName(p + [x]) == if IsName(x) then x.argval else LastName(p)
  {
    assert (p + [x])[..|p|] == p;
  }

  /** The loop body, on the state for `p`, does what `Extend` says. */
  lemma FoldStepExtends(p: seq<Instr>, x: Instr)
    requires |p| > 0 && IsName(p[0]) && Grouped(p).Some? && |Grouped(p).value| > 0
    ensures FoldStep(FoldState(Grouped(p).value, Some(LastName(p)), !IsName(p[|p| - 1])), x) ==
      Some(FoldState(Extend(Grouped(p).value, LastName(p), IsName(p[|p| - 1]), x),
        Some(if IsName(x) then x.argval else LastName(p)), !IsName(x)))
  {
  }

  lemma FoldMatchesSnoc(p: seq<Instr>, x: Instr)
    requires |p| > 0 && FoldMatches(p)
    ensures FoldMatches(p + [x])
  {
    var xs := p + [x];
    assert xs[..|xs| - 1] == p;
    assert xs[0] == p[0] && xs[|xs| - 1] == x;
    if IsName(p[0]) {
      assert Grouped(p).Some? && |Grouped(p).value| > 0 &&
        Grouped(xs) == Some(Extend(Grouped(p).value, LastName(p), IsName(p[|p| - 1]), x)) by {
        GroupedSnoc(p, x);
      }
      FoldStepExtends(p, x);
      LastNameSnoc(p, x);
    }
  }

  /** The loop as a whole computes `Grouped`: it raises exactly when `Grouped` has no value. */
  lemma FoldIsGrouped(xs: seq<Instr>)
    ensures Fold(xs).None? <==> Grouped(xs).None?
    ensures Fold(xs).Some? ==> Fold(xs).value.imports == Grouped(xs).value
  {
    if |xs| > 0 {
      FoldMatchesAll(xs);
    }
  }

  lemma {:induction false} FoldMatchesAll(xs: seq<Instr>)
    requires |xs| > 0
    ensures FoldMatches(xs)
    decreases |xs|
  {
    if |xs| == 1 {
      assert xs == [xs[0]];
      FoldMatchesSingle(xs[0]);
    } else {
      var p := xs[..|xs| - 1];
      assert xs == p + [xs[|xs| - 1]];
      FoldMatchesAll(p);
      FoldMatchesSnoc(p, xs[|xs| - 1]);
    }
  }

  /** Once the loop has raised, it stays raised. */
  lemma {:induction false} FoldRaised(xs: seq<Instr>, i: nat)
    requires i <= |xs| && Fold(xs[..i]).None?
    ensures Fold(xs).None?
    decreases |xs| - i
  {
    if i < |xs| {
      assert xs[..i + 1][..i] == xs[..i];
      FoldRaised(xs, i + 1);
    } else {
      assert xs[..i] == xs;
    }
  }

  /**
    The loop of `extract_python_imports` (lines 85-104) over one file's import
    instructions. An instruction other than IMPORT_NAME before any
    IMPORT_NAME pops from the empty list and raises, which is `None`.
   */
  method FoldImports(importinstrs: seq<Instr>) returns (r: Option<seq<string>>)
    ensures r == Grouped(importinstrs)
  {
    var imports: seq<string> := [];
    var lastimp: Option<string> := None;
    var popped := false;
    for i := 0 to |importinstrs|
      invariant Fold(importinstrs[..i]) == Some(FoldState(imports, lastimp, popped))
      invariant lastimp.None? ==> imports == [] && !popped
    {
      var instr := importinstrs[i];
      assert importinstrs[..i + 1][..i] == importinstrs[..i];
      var impname: string;
      if instr.opname == "IMPORT_NAME" {
        lastimp := Some(instr.argval);
        impname := instr.argval;
        popped := false;
      } else if instr.opname == "IMPORT_STAR" {
        assert !IsName(instr) && IsStar(instr) by {
          assert "IMPORT_STAR"[7] != "IMPORT_NAME"[7];
        }
        if !popped {
          if |imports| == 0 {
            FoldRaised(importinstrs, i + 1);
            FoldIsGrouped(importinstrs);
            return None;
          }
          imports := imports[..|imports| - 1];
          popped := true;
        }
        impname := lastimp.value + ":*";
        assert impname == lastimp.value + ":" + Item(instr);
      } else {
        if !popped {
          if |imports| == 0 {
            FoldRaised(importinstrs, i + 1);
            FoldIsGrouped(importinstrs);
            return None;
          }
          imports := imports[..|imports| - 1];
          popped := true;
        }
        impname := lastimp.value + ":" + instr.argval;
        assert impname == lastimp.value + ":" + Item(instr);
      }
      imports := imports + [impname];
    }
    assert importinstrs[..|importinstrs|] == importinstrs;
    FoldIsGrouped(importinstrs);
    return Some(imports);
  }

  /** Import statements without `from` give their names, one entry each, in order. */
  lemma {:induction false} GroupedNamesOnly(xs: seq<Instr>)
    requires forall j :: 0 <= j < |xs| ==> IsName(xs[j])
    ensures Grouped(xs) == Some(seq(|xs|, j requires 0 <= j < |xs| => xs[j].argval))
    decreases |xs|
  {
    var names := seq(|xs|, j requires 0 <= j < |xs| => xs[j].argval);
    if |xs| == 0 {
      assert names == [];
    } else {
      var rest := seq(|xs| - 1, j requires 0 <= j < |xs| - 1 => xs[1..][j].argval);
      assert Grouped(xs[1..]) == Some(rest) by {
        GroupedNamesOnly(xs[1..]);
      }
      assert Grouped(xs) == Some([xs[0].argval] + rest) by {
        GroupedUnfold(xs[0], [], xs[1..]);
        assert [xs[0]] + [] + xs[1..] == xs;
      }
      assert [xs[0].argval] + rest == names;
    }
  }
}
