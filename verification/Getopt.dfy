/** getopt for short options (lib/getopt.c): a scanner that is called again and
    again, resumes where it stopped, and moves non-options behind the options. */
module Getopt {

  import opened Wrappers

  datatype Ordering = REQUIRE_ORDER | PERMUTE | RETURN_IN_ORDER

  /** What one call returns: -1, the code 1 of a non-option, or a letter. */
  datatype Return = Done | Ordinary | Letter(c: char)

  // ----- Syntax of arguments and of the option string ------------------------

  /** Everything but an element of two or more characters starting with '-'. */
  predicate NonOption(s: string) {
    |s| < 2 || s[0] != '-'
  }

  datatype Argument = Unknown | NoArgument | OptionalArgument | RequiredArgument

  /** The tail of the option string from the letter's first occurrence on. */
  function Index(opts: string, c: char): string
    ensures Index(opts, c) == "" || Index(opts, c)[0] == c
  {
    if opts == "" || opts[0] == c then opts else Index(opts[1..], c)
  }

  function ArgumentOf(opts: string, c: char): Argument {
    var t := Index(opts, c);
    if t == "" || c == ':' then Unknown
    else if |t| > 1 && t[1] == ':' then (if |t| > 2 && t[2] == ':' then OptionalArgument else RequiredArgument)
    else NoArgument
  }

  /** The GNU extension "W;" hands over to the long options. */
  predicate NoLongW(opts: string) {
    forall i :: 0 <= i && i + 1 < |opts| ==> !(opts[i] == 'W' && opts[i + 1] == ';')
  }

  // ----- Reading an argument vector that stays as it is --------------------------

  /** One option letter: what it returns, the next element and the letters left. */
  datatype Step = Step(ret: Return, arg: Option<string>, next: nat, rest: string)

  /** The meaning of the letters `s` still unread in element `i` of `a`. */
  function LetterStep(opts: string, missing: char, a: seq<string>, i: nat, s: string): (st: Step)
    requires i < |a| && s != ""
    ensures st.ret.Letter?
    ensures i <= st.next <= |a| && (st.next == i <==> st.rest != "") && |st.rest| < |s|
  {
    var rest := s[1..];
    match ArgumentOf(opts, s[0])
    case Unknown => Step(Letter('?'), None, if rest == "" then i + 1 else i, rest)
    case NoArgument => Step(Letter(s[0]), None, if rest == "" then i + 1 else i, rest)
    case OptionalArgument => Step(Letter(s[0]), if rest == "" then None else Some(rest), i + 1, "")
    case RequiredArgument =>
      if rest != "" then Step(Letter(s[0]), Some(rest), i + 1, "")
      else if i + 1 == |a| then Step(Letter(missing), None, i + 1, "")
      else Step(Letter(s[0]), Some(a[i + 1]), i + 2, "")
  }

  /** The letter is unknown, or its argument is missing: it goes into optopt. */
  predicate Complains(opts: string, a: seq<string>, i: nat, s: string)
    requires s != ""
  {
    match ArgumentOf(opts, s[0])
    case Unknown => true
    case RequiredArgument => |s| == 1 && i + 1 >= |a|
    case _ => false
  }

  datatype Event = Event(ret: Return, arg: Option<string>)

  /** All that is left to report from element `i` on, with `s` unread in it:
      options in order, and every non-option as an event with code 1. */
  function Parse(opts: string, missing: char, a: seq<string>, i: nat, s: string): seq<Event>
    requires i <= |a| && (s != "" ==> i < |a|)
    decreases |a| - i, if s == "" then 1 else 0, |s|
  {
    if s != "" then
      var st := LetterStep(opts, missing, a, i, s);
      [Event(st.ret, st.arg)] + Parse(opts, missing, a, st.next, st.rest)
    else if i == |a| || a[i] == "--" then []
    else if NonOption(a[i]) then [Event(Ordinary, Some(a[i]))] + Parse(opts, missing, a, i + 1, "")
    else Parse(opts, missing, a, i, a[i][1..])
  }

  /** Which of the elements from `i` on are options or arguments of options
      ("--" counts as one, everything behind it does not). */
  function Marks(opts: string, a: seq<string>, i: nat, s: string): (m: seq<bool>)
    requires i <= |a| && (s != "" ==> i < |a|)
    ensures |m| == |a| - i
    decreases |a| - i, if s == "" then 1 else 0, |s|
  {
    if s != "" then
      var st := LetterStep(opts, '?', a, i, s);
      seq(st.next - i, _ => true) + Marks(opts, a, st.next, st.rest)
    else if i == |a| then []
    else if a[i] == "--" then [true] + seq(|a| - i - 1, _ => false)
    else if NonOption(a[i]) then [false] + Marks(opts, a, i + 1, "")
    else Marks(opts, a, i, a[i][1..])
  }

  lemma MarksHere(opts: string, a: seq<string>, i: nat)
    requires i <= |a|
    ensures i < |a| && a[i] != "--" ==>
      Marks(opts, a, i, "") == if NonOption(a[i]) then [false] + Marks(opts, a, i + 1, "") else Marks(opts, a, i, a[i][1..])
  {}

  /** The elements carrying the wanted mark, in their order. */
  function Select(xs: seq<string>, m: seq<bool>, want: bool): seq<string>
    requires |xs| == |m|
  {
    if xs == [] then []
    else (if m[0] == want then [xs[0]] else []) + Select(xs[1..], m[1..], want)
  }

  lemma {:induction false} SelectConcat(xs: seq<string>, m: seq<bool>, ys: seq<string>, n: seq<bool>, want: bool)
    requires |xs| == |m| && |ys| == |n|
    ensures Select(xs + ys, m + n, want) == Select(xs, m, want) + Select(ys, n, want)
  {
    if xs == [] {
      assert xs + ys == ys && m + n == n;
    } else {
      var head := if m[0] == want then [xs[0]] else [];
      var rest, other := Select(xs[1..], m[1..], want), Select(ys, n, want);
      assert (xs + ys)[1..] == xs[1..] + ys && (m + n)[1..] == m[1..] + n;
      SelectConcat(xs[1..], m[1..], ys, n, want);
      Associate(head, rest, other);
    }
  }

  lemma {:induction false} SelectUniform(xs: seq<string>, m: seq<bool>, b: bool)
    requires |xs| == |m| && forall k :: 0 <= k < |m| ==> m[k] == b
    ensures Select(xs, m, b) == xs && Select(xs, m, !b) == []
  {
    if xs != [] {
      SelectUniform(xs[1..], m[1..], b);
    }
  }

  lemma SelectHead(xs: seq<string>, m: seq<bool>)
    requires |xs| == |m| && xs != []
    ensures Select(xs, m, m[0]) == [xs[0]] + Select(xs[1..], m[1..], m[0])
    ensures Select(xs, m, !m[0]) == Select(xs[1..], m[1..], !m[0])
  {}

  lemma HeadMultiset(x: string, s: seq<string>)
    ensures multiset([x] + s) == multiset{x} + multiset(s)
  {}

  lemma TailMultiset(xs: seq<string>)
    requires xs != []
    ensures multiset(xs) == multiset{xs[0]} + multiset(xs[1..])
  {
    assert xs == [xs[0]] + xs[1..];
  }

  /** The first element goes to the selection of its mark. */
  lemma SelectTakes(xs: seq<string>, m: seq<bool>)
    requires |xs| == |m| && xs != []
    ensures multiset(Select(xs, m, m[0])) == multiset{xs[0]} + multiset(Select(xs[1..], m[1..], m[0]))
    ensures |Select(xs, m, m[0])| == 1 + |Select(xs[1..], m[1..], m[0])|
    ensures Select(xs, m, !m[0]) == Select(xs[1..], m[1..], !m[0])
  {
    SelectHead(xs, m);
    HeadMultiset(xs[0], Select(xs[1..], m[1..], m[0]));
    hide Select;
  }

  /** A selection and its complement together are a permutation. */
  lemma {:induction false} SelectPermutes(xs: seq<string>, m: seq<bool>)
    requires |xs| == |m|
    ensures multiset(Select(xs, m, true)) + multiset(Select(xs, m, false)) == multiset(xs)
    ensures |Select(xs, m, true)| + |Select(xs, m, false)| == |xs|
  {
    if xs != [] {
      SelectPermutes(xs[1..], m[1..]);
      SelectTakes(xs, m);
      TailMultiset(xs);
      hide Select;
    }
  }

  lemma SameTail(v: seq<string>, o: seq<string>, i: nat, k: nat)
    requires |v| == |o| && i <= k <= |v| && v[i..] == o[i..]
    ensures v[i..k] == o[i..k] && v[k..] == o[k..]
  {
    assert v[i..k] == v[i..][..k - i] && o[i..k] == o[i..][..k - i];
    assert v[k..] == v[i..][k - i..] && o[k..] == o[i..][k - i..];
  }

  /** The argument vector getopt is to leave behind when scanning starts at `start`. */
  function Partitioned(opts: string, a: seq<string>, start: nat): seq<string>
    requires start <= |a|
  {
    var m := Marks(opts, a, start, "");
    a[..start] + Select(a[start..], m, true) + Select(a[start..], m, false)
  }

  function OptionCount(opts: string, a: seq<string>, start: nat): nat
    requires start <= |a|
  {
    |Select(a[start..], Marks(opts, a, start, ""), true)|
  }

  // ----- Rotation ----------------------------------------------------------------

  function Rotate(s: seq<string>, bottom: nat, middle: nat, top: nat): (r: seq<string>)
    requires bottom <= middle <= top <= |s|
    ensures |r| == |s|
  {
    s[..bottom] + s[middle..top] + s[bottom..middle] + s[top..]
  }

  predicate Swapped(s: seq<string>, r: seq<string>, p: nat, q: nat, len: nat)
    requires p + len <= q && q + len <= |s|
  {
    && |r| == |s|
    && (forall k :: p <= k < p + len ==> r[k] == s[k + (q - p)])
    && (forall k :: q <= k < q + len ==> r[k] == s[k - (q - p)])
    && (forall k :: 0 <= k < |s| && !(p <= k < p + len) && !(q <= k < q + len) ==> r[k] == s[k])
  }

  lemma RotateNothing(s: seq<string>, bottom: nat, middle: nat, top: nat)
    requires bottom <= middle <= top <= |s| && (bottom == middle || middle == top)
    ensures Rotate(s, bottom, middle, top) == s
  {}

  lemma RotateIndex(s: seq<string>, bottom: nat, middle: nat, top: nat, k: nat)
    requires bottom <= middle <= top <= |s| && k < |s|
    ensures Rotate(s, bottom, middle, top)[k] ==
      if k < bottom || k >= top then s[k]
      else if k < bottom + (top - middle) then s[k + (middle - bottom)]
      else s[k - (top - middle)]
  {}

  lemma RotateBottomShort(s: seq<string>, r: seq<string>, bottom: nat, middle: nat, top: nat)
    requires bottom < middle < top <= |s| && top - middle > middle - bottom
    requires Swapped(s, r, bottom, top - (middle - bottom), middle - bottom)
    ensures Rotate(r, bottom, middle, top - (middle - bottom)) == Rotate(s, bottom, middle, top)
  {
    hide Rotate;
    forall k | 0 <= k < |s|
      ensures Rotate(r, bottom, middle, top - (middle - bottom))[k] == Rotate(s, bottom, middle, top)[k]
    {
      RotateIndex(s, bottom, middle, top, k);
      RotateIndex(r, bottom, middle, top - (middle - bottom), k);
    }
  }

  lemma RotateTopShort(s: seq<string>, r: seq<string>, bottom: nat, middle: nat, top: nat)
    requires bottom < middle < top <= |s| && top - middle <= middle - bottom
    requires Swapped(s, r, bottom, middle, top - middle)
    ensures Rotate(r, bottom + (top - middle), middle, top) == Rotate(s, bottom, middle, top)
  {
    hide Rotate;
    forall k | 0 <= k < |s|
      ensures Rotate(r, bottom + (top - middle), middle, top)[k] == Rotate(s, bottom, middle, top)[k]
    {
      RotateIndex(s, bottom, middle, top, k);
      RotateIndex(r, bottom + (top - middle), middle, top, k);
    }
  }

  // ----- One call ------------------------------------------------------------------

  /** First element from `i` on that is not a non-option. */
  function SkipOrdinary(a: seq<string>, i: nat): (j: nat)
    requires i <= |a|
    ensures i <= j <= |a| && (j < |a| ==> !NonOption(a[j]))
    ensures forall k :: i <= k < j ==> NonOption(a[k])
    decreases |a| - i
  {
    if i < |a| && NonOption(a[i]) then SkipOrdinary(a, i + 1) else i
  }

  datatype Call = Stop(at: nat) | Give(step: Step)

  /** What one call does, in terms of the unpermuted vector `a`. */
  function Outcome(ord: Ordering, opts: string, missing: char, a: seq<string>, i: nat, s: string): Call
    requires i <= |a| && (s != "" ==> i < |a|)
  {
    if s != "" then Give(LetterStep(opts, missing, a, i, s))
    else
      var j := if ord == PERMUTE then SkipOrdinary(a, i) else i;
      if j == |a| || a[j] == "--" then Stop(j)
      else if !NonOption(a[j]) then Give(LetterStep(opts, missing, a, j, a[j][1..]))
      else if ord == REQUIRE_ORDER then Stop(j)
      else Give(Step(Ordinary, Some(a[j]), j + 1, ""))
  }

  lemma {:induction false} MarksSkip(opts: string, a: seq<string>, i: nat)
    requires i <= |a|
    ensures Marks(opts, a, i, "") == seq(SkipOrdinary(a, i) - i, _ => false) + Marks(opts, a, SkipOrdinary(a, i), "")
    decreases |a| - i
  {
    hide Marks, SkipOrdinary;
    SkipHere(a, i);
    if i < |a| && NonOption(a[i]) {
      MarksHere(opts, a, i);
      MarksSkip(opts, a, i + 1);
      OneMoreFalse(SkipOrdinary(a, i) - i - 1, Marks(opts, a, SkipOrdinary(a, i), ""));
    } else {
      NoFalse(Marks(opts, a, i, ""));
    }
  }

  lemma SkipHere(a: seq<string>, i: nat)
    requires i <= |a|
    ensures SkipOrdinary(a, i) == if i < |a| && NonOption(a[i]) then SkipOrdinary(a, i + 1) else i
  {}

  lemma OneMoreFalse(n: nat, m: seq<bool>)
    ensures [false] + (seq(n, _ => false) + m) == seq(n + 1, _ => false) + m
  {}

  lemma NoFalse(m: seq<bool>)
    ensures seq(0, _ => false) + m == m
  {}

  /** my_index. */
  method MyIndex(str: string, chr: char) returns (t: string)
    ensures t == Index(str, chr)
  {
    t := str;
    while t != ""
      invariant Index(t, chr) == Index(str, chr)
      decreases |t|
    {
      if t[0] == chr { return; }
      t := t[1..];
    }
  }

  /** A letter marks the elements it uses up as options; the error code for a
      missing argument plays no part in it. */
  lemma MarksLetter(opts: string, missing: char, a: seq<string>, i: nat, s: string)
    requires i < |a| && s != ""
    ensures var st := LetterStep(opts, missing, a, i, s);
      Marks(opts, a, i, s) == seq(st.next - i, _ => true) + Marks(opts, a, st.next, st.rest)
  {
    SameProgress(opts, missing, a, i, s);
    hide LetterStep;
  }

  lemma SameProgress(opts: string, missing: char, a: seq<string>, i: nat, s: string)
    requires i < |a| && s != ""
    ensures LetterStep(opts, missing, a, i, s).next == LetterStep(opts, '?', a, i, s).next
    ensures LetterStep(opts, missing, a, i, s).rest == LetterStep(opts, '?', a, i, s).rest
  {}

  function Min(a: nat, b: nat): nat {
    if a > b then b else a
  }

  class Scanner {
    var optind: nat
    var optarg: Option<string>
    var optopt: char
    var nextchar: string
    var first: nat
    var last: nat
    var ordering: Ordering
    var initialized: bool
    // The vector as it was when scanning began, where it began, and which of
    // the elements passed since then are options or their arguments.
    ghost var orig: seq<string>
    ghost var start: nat
    ghost var seen: seq<bool>

    constructor ()
      ensures optind == 1 && !initialized
    {
      optind, optarg, optopt, nextchar := 1, None, '?', "";
      first, last, ordering, initialized := 0, 0, PERMUTE, false;
      orig, start, seen := [], 0, [];
    }

    /** The unscanned elements, and those before the start, are where they were. */
    ghost predicate InPlace(argv: array<string>)
      reads this, argv
    {
      && argv.Length == |orig|
      && 1 <= start <= first <= optind <= |orig|
      && |seen| == optind - start
      && (nextchar != "" ==> optind < |orig|)
      && argv[optind..] == orig[optind..]
      && argv[..start] == orig[..start]
    }

    /** Skipped non-options sit in [first, last); the options passed so far
        fill the room before and behind them, each group in its order. */
    ghost predicate Permuted(argv: array<string>)
      requires InPlace(argv) && first <= last <= optind
      reads this, argv
    {
      && argv[first..last] == Select(orig[start..optind], seen, false)
      && argv[start..first] + argv[last..optind] == Select(orig[start..optind], seen, true)
    }

    ghost predicate Valid(argv: array<string>)
      reads this, argv
    {
      && InPlace(argv) && first <= last <= optind
      && (ordering == PERMUTE ==> Permuted(argv))
      && (ordering != PERMUTE ==> argv[..] == orig && first == last == start)
    }

    /** The inner loops of exchange. */
    method SwapSegments(argv: array<string>, p: nat, q: nat, len: nat)
      requires p + len <= q && q + len <= argv.Length
      modifies argv
      ensures Swapped(old(argv[..]), argv[..], p, q, len)
    {
      for i := 0 to len
        invariant forall k :: p <= k < p + i ==> argv[k] == old(argv[k + (q - p)])
        invariant forall k :: q <= k < q + i ==> argv[k] == old(argv[k - (q - p)])
        invariant forall k :: 0 <= k < argv.Length && !(p <= k < p + i) && !(q <= k < q + i) ==> argv[k] == old(argv[k])
      {
        argv[p + i], argv[q + i] := argv[q + i], argv[p + i];
      }
    }

    /** exchange: rotates the skipped non-options behind the options that
        followed them, always swapping the shorter segment into place. */
    method Exchange(argv: array<string>)
      requires first <= last <= optind <= argv.Length
      modifies argv, this`first, this`last
      ensures argv[..] == Rotate(old(argv[..]), old(first), old(last), optind)
      ensures first == old(first) + (optind - old(last)) && last == optind
    {
      hide Rotate, Swapped;
      var bottom: nat, middle: nat, top: nat := first, last, optind;
      while top > middle && middle > bottom
        invariant first == old(first) && last == old(last)
        invariant bottom <= middle <= top <= argv.Length
        invariant Rotate(argv[..], bottom, middle, top) == Rotate(old(argv[..]), first, last, optind)
        decreases top - bottom
      {
        ghost var before := argv[..];
        if top - middle > middle - bottom {
          var len := middle - bottom;
          SwapSegments(argv, bottom, top - len, len);
          RotateBottomShort(before, argv[..], bottom, middle, top);
          top := top - len;
        } else {
          var len := top - middle;
          SwapSegments(argv, bottom, middle, len);
          RotateTopShort(before, argv[..], bottom, middle, top);
          bottom := bottom + len;
        }
      }
      RotateNothing(argv[..], bottom, middle, top);
      first := first + (optind - last);
      last := optind;
    }

    /** Skipped non-options directly in front of `optind`, all options before them. */
    ghost predicate Gathered(argv: array<string>)
      reads this, argv
    {
      && InPlace(argv)
      && argv[first..optind] == Select(orig[start..optind], seen, false)
      && argv[start..first] == Select(orig[start..optind], seen, true)
    }

    /** Lines 562-565: put the options just processed before the non-options
        skipped earlier. */
    method Flush(argv: array<string>)
      requires Valid(argv) && ordering == PERMUTE && nextchar == ""
      modifies argv, this`first, this`last
      ensures Gathered(argv) && InPlace(argv)
    {
      hide Select, Rotate;
      ghost var before := argv[..];
      if first != last && last != optind {
        Exchange(argv);
        RotatedSlices(before, argv[..], start, old(first), old(last), optind);
      } else if last != optind {
        first := optind;
        assert argv[old(first)..last] == [] == argv[first..optind];
        assert argv[start..first] == argv[start..old(first)] + argv[last..optind];
      } else {
        assert argv[last..optind] == [];
      }
    }

    /** The body of the loop in lines 570-571. */
    method SkipOne(argv: array<string>)
      requires Gathered(argv) && InPlace(argv) && optind < argv.Length && nextchar == ""
      modifies this`optind, this`seen
      ensures Gathered(argv) && InPlace(argv)
      ensures optind == old(optind) + 1 && seen == old(seen) + [false]
    {
      hide Select;
      Extend(orig, start, optind, seen, false);
      assert argv[optind] == orig[optind];
      assert argv[first..optind + 1] == argv[first..optind] + [argv[optind]];
      seen := seen + [false];
      optind := optind + 1;
      assert argv[optind..] == orig[optind..];
    }

    /** Lines 570-571. */
    method SkipAll(argv: array<string>)
      requires Gathered(argv) && InPlace(argv) && nextchar == ""
      modifies this`optind, this`seen
      ensures Gathered(argv) && InPlace(argv)
      ensures optind == SkipOrdinary(orig, old(optind))
      ensures seen == old(seen) + seq(optind - old(optind), _ => false)
    {
      hide Select, Gathered;
      while optind < argv.Length && NonOption(argv[optind])
        invariant Gathered(argv) && InPlace(argv) && old(optind) <= optind
        invariant SkipOrdinary(orig, optind) == SkipOrdinary(orig, old(optind))
        invariant seen == old(seen) + seq(optind - old(optind), _ => false)
      {
        assert argv[optind] == orig[optind];
        SkipOne(argv);
      }
      assert optind < |orig| ==> argv[optind] == orig[optind];
    }

    /** Lines 557-573: flush, then skip the non-options that come next. */
    method GatherOrdinary(argv: array<string>)
      requires Valid(argv) && ordering == PERMUTE && nextchar == ""
      modifies argv, this`first, this`last, this`optind, this`seen
      ensures Gathered(argv) && last == optind
      ensures optind == SkipOrdinary(orig, old(optind))
      ensures seen == old(seen) + seq(optind - old(optind), _ => false)
    {
      hide Select, Permuted, SkipOrdinary;
      Flush(argv);
      SkipAll(argv);
      last := optind;
    }

    lemma GatheredIsValid(argv: array<string>)
      requires Gathered(argv) && last == optind && ordering == PERMUTE
      ensures Valid(argv)
    {
      assert argv[last..optind] == [];
    }

    /** Passing one more element appends it to the selection of its mark. */
    lemma Extend(a: seq<string>, start: nat, i: nat, m: seq<bool>, b: bool)
      requires start <= i < |a| && |m| == i - start
      ensures Select(a[start..i + 1], m + [b], b) == Select(a[start..i], m, b) + [a[i]]
      ensures Select(a[start..i + 1], m + [b], !b) == Select(a[start..i], m, !b)
    {
      assert a[start..i + 1] == a[start..i] + [a[i]];
      SelectConcat(a[start..i], m, [a[i]], [b], b);
      SelectConcat(a[start..i], m, [a[i]], [b], !b);
    }

    lemma RotatedSlices(s: seq<string>, r: seq<string>, start: nat, first: nat, last: nat, top: nat)
      requires start <= first <= last <= top <= |s|
      requires r == Rotate(s, first, last, top)
      ensures var f := first + (top - last);
        && r[start..f] == s[start..first] + s[last..top]
        && r[f..top] == s[first..last]
        && r[top..] == s[top..] && r[..start] == s[..start]
    {}

    /** The next element, passed like an option, stands behind the skipped ones. */
    lemma NextJoins(argv: array<string>)
      requires Valid(argv) && ordering == PERMUTE && last == optind < argv.Length
      ensures argv[..][first..last] == Select(orig[start..optind + 1], seen + [true], false)
      ensures argv[..][start..first] + argv[..][last..optind + 1] == Select(orig[start..optind + 1], seen + [true], true)
    {
      Extend(orig, start, optind, seen, true);
      hide Select;
      var v := argv[..];
      assert v[first..last] == argv[first..last] && v[start..first] == argv[start..first];
      assert argv[last..optind] == [];
      assert v[last..optind + 1] == [orig[optind]];
    }

    /** The two ways in which the options come to stand in front. */
    lemma Joined(v: seq<string>, f0: nat, l: nat, i: nat, start: nat)
      requires start <= f0 == l <= i <= |v|
      ensures v[start..i] == v[start..f0] + v[l..i] && v[i..i] == v[f0..l]
    {}

    /** Lines 580-587: pass "--" like an option and move it before the
        non-options skipped so far. */
    method PassDashes(argv: array<string>)
      requires Valid(argv) && optind < argv.Length && nextchar == ""
      requires ordering == PERMUTE ==> last == optind
      modifies argv, this`first, this`last, this`optind, this`seen
      ensures ordering == PERMUTE ==> Gathered(argv)
      ensures ordering != PERMUTE ==> argv[..] == orig && first == optind
      ensures optind == old(optind) + 1 && seen == old(seen) + [true] && first <= optind
    {
      hide Select, Rotate, Permuted;
      if ordering == PERMUTE {
        NextJoins(argv);
      }
      SameTail(argv[..], orig, optind, optind + 1);
      optind := optind + 1;
      seen := seen + [true];
      ghost var before := argv[..];
      if first != last && last != optind {
        Exchange(argv);
        RotatedSlices(before, argv[..], start, old(first), old(last), optind);
      } else if first == last {
        Joined(argv[..], first, last, optind, start);
        first := optind;
      }
      assert argv[first..optind] == argv[..][first..optind] && argv[start..first] == argv[..][start..first];
    }

    /** With the rest of the vector passed like non-options, all are gathered. */
    lemma GatherRest(v: seq<string>, a: seq<string>, first: nat, i: nat, m: seq<bool>, start: nat)
      requires start <= first <= i <= |a| == |v| && |m| == i - start
      requires v[i..] == a[i..] && v[first..i] == Select(a[start..i], m, false)
      ensures v[first..|a|] == Select(a[start..|a|], m + seq(|a| - i, _ => false), false)
      ensures Select(a[start..|a|], m + seq(|a| - i, _ => false), true) == Select(a[start..i], m, true)
    {
      ExtendMany(a, start, i, |a|, m, false);
      SplitSlice(v, first, i, |a|);
      ToTheEnd(v, i);
      ToTheEnd(a, i);
    }

    /** Lines 580-591: pass "--" like an option, then the rest like non-options. */
    method EndOptions(argv: array<string>)
      requires Valid(argv) && optind < argv.Length && nextchar == ""
      requires ordering == PERMUTE ==> last == optind
      modifies argv, this`first, this`last, this`optind, this`seen
      ensures ordering == PERMUTE ==> Gathered(argv)
      ensures ordering != PERMUTE ==> argv[..] == orig && first == old(optind) + 1
      ensures last == optind == argv.Length
      ensures seen == old(seen) + [true] + seq(argv.Length - old(optind) - 1, _ => false)
    {
      hide Select;
      PassDashes(argv);
      last := argv.Length;
      if ordering == PERMUTE {
        GatherRest(argv[..], orig, first, optind, seen, start);
      }
      seen := seen + seq(argv.Length - optind, _ => false);
      optind := argv.Length;
    }

    /** Passing several elements appends them to the selection of their mark. */
    lemma ExtendMany(a: seq<string>, start: nat, i: nat, j: nat, m: seq<bool>, b: bool)
      requires start <= i <= j <= |a| && |m| == i - start
      ensures var n := m + seq(j - i, _ => b);
        && Select(a[start..j], n, b) == Select(a[start..i], m, b) + a[i..j]
        && Select(a[start..j], n, !b) == Select(a[start..i], m, !b)
    {
      var rest := seq(j - i, _ => b);
      assert a[start..j] == a[start..i] + a[i..j];
      SelectConcat(a[start..i], m, a[i..j], rest, b);
      SelectConcat(a[start..i], m, a[i..j], rest, !b);
      SelectUniform(a[i..j], rest, b);
    }

    /** After the last call: the options in order, then the non-options in
        order, with optind at the first of these. */
    ghost predicate Finished(argv: array<string>, m: seq<bool>)
      reads this, argv
    {
      && start <= |orig| && |m| == |orig| - start
      && argv[..] == orig[..start] + Select(orig[start..], m, true) + Select(orig[start..], m, false)
      && optind == start + |Select(orig[start..], m, true)|
    }

    lemma FinishedPartition(argv: array<string>, opts: string)
      requires start <= |orig| && Finished(argv, Marks(opts, orig, start, ""))
      ensures argv[..] == Partitioned(opts, orig, start) && optind == start + OptionCount(opts, orig, start)
    {
      hide Marks, Select;
    }

    lemma MarksOfStop(opts: string, a: seq<string>, i: nat, m: seq<bool>)
      requires i <= |a|
      ensures var j := SkipOrdinary(a, i);
        var skipped := m + seq(j - i, _ => false);
        && (j == |a| ==> m + Marks(opts, a, i, "") == skipped)
        && (j < |a| && a[j] == "--" ==> m + Marks(opts, a, i, "") == skipped + [true] + seq(|a| - j - 1, _ => false))
    {
      var j := SkipOrdinary(a, i);
      MarksSkip(opts, a, i);
      if j == |a| || a[j] == "--" {
        MarksAtEnd(opts, a, j);
      }
    }

    lemma MarksAtEnd(opts: string, a: seq<string>, j: nat)
      requires j <= |a| && (j < |a| ==> a[j] == "--")
      ensures Marks(opts, a, j, "") == if j == |a| then [] else [true] + seq(|a| - j - 1, _ => false)
    {}

    lemma AllGathered(argv: array<string>)
      requires Gathered(argv) && optind == argv.Length
      ensures argv[..] == orig[..start] + Select(orig[start..], seen, true) + Select(orig[start..], seen, false)
      ensures first == start + |Select(orig[start..], seen, true)|
    {
      assert orig[start..optind] == orig[start..];
      assert argv[..] == argv[..start] + argv[start..first] + argv[first..optind];
    }

    /** Where the scan would look next. */
    ghost function Ahead(): nat
      requires optind <= |orig|
      reads this
    {
      if ordering == PERMUTE then SkipOrdinary(orig, optind) else optind
    }

    /** The marks of everything, as long as the option string stays `opts`. */
    ghost function AllMarks(opts: string): seq<bool>
      requires optind <= |orig| && (nextchar != "" ==> optind < |orig|)
      reads this
    {
      seen + Marks(opts, orig, optind, nextchar)
    }

    /** Lines 596-602: with everything scanned, point back at the non-options. */
    method BackUp(argv: array<string>)
      requires optind == argv.Length
      requires ordering == PERMUTE ==> Gathered(argv) && last == optind
      modifies this`optind
      ensures optind == if first != last then first else argv.Length
      ensures ordering == PERMUTE ==> Finished(argv, seen)
    {
      if ordering == PERMUTE {
        AllGathered(argv);
      }
      if first != last {
        optind := first;
      }
    }

    /** Lines 550-603: gather non-options and stop at "--" or at the end. */
    method Stops(argv: array<string>, ghost opts: string) returns (done: bool)
      requires Valid(argv) && nextchar == ""
      modifies argv, this`first, this`last, this`optind, this`seen
      ensures var j := old(Ahead());
        && done == (j == |orig| || orig[j] == "--")
        && (done && ordering == PERMUTE ==> Finished(argv, old(AllMarks(opts))))
        && (done && ordering != PERMUTE ==> argv[..] == orig && optind == if j < |orig| then j + 1 else j)
        && (!done ==> Valid(argv) && optind == j && seen == old(seen) + seq(j - old(optind), _ => false))
    {
      hide Select, Marks, Finished, SkipOrdinary, Permuted, Gathered;
      ghost var j := Ahead();
      ghost var m := AllMarks(opts);
      last := Min(last, optind);
      first := Min(first, optind);
      if ordering == PERMUTE {
        GatherOrdinary(argv);
        GatheredIsValid(argv);
      }
      assert optind == j && (j < |orig| ==> argv[j] == orig[j]);
      done := optind == argv.Length || argv[optind] == "--";
      if optind != argv.Length && argv[optind] == "--" {
        EndOptions(argv);
      }
      if optind == argv.Length {
        if ordering == PERMUTE {
          MarksOfStop(opts, orig, old(optind), old(seen));
        }
        BackUp(argv);
      }
    }

    /** The marks, unrolled up to the element the scan looks at next. */
    lemma MarksAhead(opts: string)
      requires optind <= |orig| && nextchar == ""
      ensures var j := Ahead(); j < |orig| && orig[j] != "--" ==>
        if NonOption(orig[j]) then ordering != PERMUTE && AllMarks(opts) == seen + [false] + Marks(opts, orig, j + 1, "")
        else AllMarks(opts) == seen + seq(j - optind, _ => false) + Marks(opts, orig, j, orig[j][1..])
    {
      var j := Ahead();
      if ordering == PERMUTE {
        MarksSkip(opts, orig, optind);
      }
      MarksHere(opts, orig, j);
      hide Marks, SkipOrdinary;
      if j < |orig| && orig[j] != "--" {
        if NonOption(orig[j]) {
          Associate(seen, [false], Marks(opts, orig, j + 1, ""));
        } else if ordering == PERMUTE {
          Associate(seen, seq(j - optind, _ => false), Marks(opts, orig, j, ""));
        } else {
          assert seq(j - optind, _ => false) == [] && seen + [] == seen;
        }
      }
    }

    /** Lines 548-620: move on to the next element that is to be scanned. */
    method Advance(argv: array<string>, ghost opts: string) returns (r: Option<Return>)
      requires Valid(argv) && nextchar == "" && optarg == None
      modifies argv, this`first, this`last, this`optind, this`seen, this`optarg, this`nextchar
      ensures var j := old(Ahead());
        if j == |orig| || orig[j] == "--" || (NonOption(orig[j]) && ordering == REQUIRE_ORDER) then
          && r == Some(Done)
          && (ordering == PERMUTE ==> Finished(argv, old(AllMarks(opts))))
          && (ordering != PERMUTE ==> argv[..] == orig && optind == if j < |orig| && orig[j] == "--" then j + 1 else j)
        else if NonOption(orig[j]) then
          && r == Some(Ordinary) && optarg == Some(orig[j]) && optind == j + 1 && nextchar == ""
          && Valid(argv) && seen == old(seen) + [false]
        else
          && r == None && optarg == None && optind == j && nextchar == orig[j][1..]
          && Valid(argv) && seen == old(seen) + seq(j - old(optind), _ => false)
    {
      hide Select, Marks, Finished, SkipOrdinary;
      var done := Stops(argv, opts);
      if done { return Some(Done); }
      assert argv[optind] == orig[optind];
      if NonOption(argv[optind]) {
        if ordering == REQUIRE_ORDER { return Some(Done); }
        optarg := Some(argv[optind]);
        optind := optind + 1;
        seen := seen + [false];
        return Some(Ordinary);
      }
      nextchar := argv[optind][1..];
      return None;
    }

    /** Options of a finished element join the ones behind the skipped non-options. */
    ghost method PassOptions(argv: array<string>, i: nat)
      requires argv.Length == |orig| && optind <= |orig| && i <= optind
      requires 1 <= start <= first <= last <= i && |seen| == i - start
      requires argv[i..] == orig[i..] && argv[..start] == orig[..start]
      requires nextchar != "" ==> optind < |orig|
      requires ordering == PERMUTE ==>
        && argv[first..last] == Select(orig[start..i], seen, false)
        && argv[start..first] + argv[last..i] == Select(orig[start..i], seen, true)
      requires ordering != PERMUTE ==> argv[..] == orig && first == last == start
      modifies this`seen
      ensures Valid(argv) && seen == old(seen) + seq(optind - i, _ => true)
    {
      hide Select;
      SameTail(argv[..], orig, i, optind);
      if ordering == PERMUTE {
        ExtendMany(orig, start, i, optind, seen, true);
        assert argv[last..optind] == argv[last..i] + orig[i..optind];
        Associate(argv[start..first], argv[last..i], orig[i..optind]);
      }
      seen := seen + seq(optind - i, _ => true);
    }

    /** Lines 921-966: take the argument of a letter that accepts one. The rest
        of the element serves first; a required argument may be the next element. */
    method TakeArgument(argv: array<string>, optional: bool, c: char, missing: char) returns (r: char)
      requires optind <= argv.Length
      modifies this`optind, this`optarg, this`optopt, this`nextchar
      ensures nextchar == ""
      ensures old(nextchar) != "" ==> r == c && optarg == Some(old(nextchar)) && optind == old(optind) + 1
      ensures old(nextchar) == "" && optional ==> r == c && optarg == None && optind == old(optind)
      ensures old(nextchar) == "" && !optional ==>
        if old(optind) == argv.Length then r == missing && optarg == old(optarg) && optind == old(optind) && optopt == c
        else r == c && optarg == Some(argv[old(optind)]) && optind == old(optind) + 1
      ensures old(nextchar) != "" || optional || old(optind) < argv.Length ==> optopt == old(optopt)
    {
      r := c;
      if nextchar != "" {
        optarg := Some(nextchar);
        optind := optind + 1;
      } else if optional {
        optarg := None;
      } else if optind == argv.Length {
        optopt := c;
        r := missing;
      } else {
        optarg := Some(argv[optind]);
        optind := optind + 1;
      }
      nextchar := "";
    }

    /** Lines 774-968: handle the next letter of the current element. */
    method ScanLetter(argv: array<string>, opts: string, missing: char) returns (r: Return)
      requires argv.Length == |orig| && optind < |orig| && argv[optind..] == orig[optind..]
      requires nextchar != "" && optarg == None && NoLongW(opts)
      modifies this`optind, this`optarg, this`optopt, this`nextchar
      ensures Step(r, optarg, optind, nextchar) == LetterStep(opts, missing, orig, old(optind), old(nextchar))
      ensures optopt == if Complains(opts, orig, old(optind), old(nextchar)) then old(nextchar)[0] else old(optopt)
    {
      hide NoLongW;
      ghost var i := optind;
      assert i + 1 < |orig| ==> argv[i + 1] == orig[i + 1];
      var c := nextchar[0];
      nextchar := nextchar[1..];
      var temp := MyIndex(opts, c);
      if nextchar == "" {
        optind := optind + 1;
      }
      if temp == "" || c == ':' {
        optopt := c;
        r := Letter('?');
      } else if |temp| > 1 && temp[1] == ':' {
        var ret := TakeArgument(argv, |temp| > 2 && temp[2] == ':', c, missing);
        r := Letter(ret);
      } else {
        r := Letter(c);
      }
    }

    /** One letter, and the elements it uses up marked as options. */
    method DecodeLetter(argv: array<string>, opts: string, missing: char) returns (r: Return)
      requires Valid(argv) && nextchar != "" && optarg == None && NoLongW(opts)
      modifies this`optind, this`optarg, this`optopt, this`nextchar, this`seen
      ensures Valid(argv) && AllMarks(opts) == old(AllMarks(opts))
      ensures Step(r, optarg, optind, nextchar) == LetterStep(opts, missing, orig, old(optind), old(nextchar))
      ensures optopt == if Complains(opts, orig, old(optind), old(nextchar)) then old(nextchar)[0] else old(optopt)
    {
      hide Select, Marks, NoLongW, ArgumentOf;
      ghost var i := optind;
      MarksLetter(opts, missing, orig, i, nextchar);
      r := ScanLetter(argv, opts, missing);
      PassOptions(argv, i);
    }

    /** _getopt_internal without long options, once initialised. */
    method Next(argv: array<string>, opts: string, missing: char) returns (r: Return)
      requires Valid(argv) && NoLongW(opts)
      modifies argv, this`first, this`last, this`optind, this`seen, this`optarg, this`nextchar, this`optopt
      ensures match old(Outcome(ordering, opts, missing, orig, optind, nextchar))
        case Give(st) =>
          && Step(r, optarg, optind, nextchar) == st
          && Valid(argv) && AllMarks(opts) == old(AllMarks(opts))
        case Stop(at) =>
          && r == Done
          && (ordering == PERMUTE ==> Finished(argv, old(AllMarks(opts))))
          && (ordering != PERMUTE ==> argv[..] == orig && optind == if at < |orig| && orig[at] == "--" then at + 1 else at)
    {
      hide Select, Marks, SkipOrdinary, Finished, LetterStep;
      optarg := None;
      if nextchar == "" {
        MarksAhead(opts);
        var stop := Advance(argv, opts);
        if stop.Some? { return stop.value; }
      }
      r := DecodeLetter(argv, opts, missing);
    }

    /** The next call will start over. */
    predicate Begins()
      reads this
    {
      optind == 0 || !initialized
    }

    /** _getopt_initialize. */
    method Initialize(argv: array<string>, optstring: string, posixly: bool) returns (opts: string)
      requires 1 <= optind <= argv.Length
      modifies this
      ensures Valid(argv) && orig == argv[..] && start == optind == old(optind) && seen == [] && nextchar == ""
      ensures ordering == OrderingOf(optstring, posixly) && opts == Stripped(optstring)
    {
      first, last := optind, optind;
      nextchar := "";
      opts := optstring;
      if optstring != "" && optstring[0] == '-' {
        ordering := RETURN_IN_ORDER;
        opts := optstring[1..];
      } else if optstring != "" && optstring[0] == '+' {
        ordering := REQUIRE_ORDER;
        opts := optstring[1..];
      } else if posixly {
        ordering := REQUIRE_ORDER;
      } else {
        ordering := PERMUTE;
      }
      orig, start, seen := argv[..], optind, [];
      assert argv[first..last] == [] == argv[start..first] && orig[start..optind] == [];
    }

    /** getopt. Only the initialising call skips a leading '-' or '+' of the
        option string; the later ones look letters up in the string as given. */
    method Getopt(argv: array<string>, optstring: string, posixly: bool) returns (r: Return)
      requires argv.Length >= 1 && NoLongW(optstring)
      requires if Begins() then optind <= argv.Length else Valid(argv)
      modifies argv, this
      ensures initialized
      ensures var begins := old(Begins());
        var a := if begins then old(argv[..]) else old(orig);
        var i := if begins && old(optind) == 0 then 1 else old(optind);
        var s := if begins then "" else old(nextchar);
        var opts := if begins then Stripped(optstring) else optstring;
        var m := (if begins then [] else old(seen)) + Marks(opts, a, i, s);
        && orig == a && start == (if begins then i else old(start))
        && ordering == (if begins then OrderingOf(optstring, posixly) else old(ordering))
        && match Outcome(ordering, opts, MissingCode(opts), a, i, s)
           case Give(st) => Step(r, optarg, optind, nextchar) == st && Valid(argv) && AllMarks(opts) == m
           case Stop(at) =>
             && r == Done
             && (ordering == PERMUTE ==> Finished(argv, m))
             && (ordering != PERMUTE ==> argv[..] == a && optind == if at < |a| && a[at] == "--" then at + 1 else at)
    {
      hide Select, Marks, SkipOrdinary, Finished, LetterStep, Outcome;
      var opts := optstring;
      if optind == 0 || !initialized {
        if optind == 0 { optind := 1; }
        opts := Initialize(argv, optstring, posixly);
        initialized := true;
      }
      StrippedKeepsNoLongW(optstring);
      r := Next(argv, opts, MissingCode(opts));
    }
  }

  function OrderingOf(optstring: string, posixly: bool): Ordering {
    if optstring != "" && optstring[0] == '-' then RETURN_IN_ORDER
    else if (optstring != "" && optstring[0] == '+') || posixly then REQUIRE_ORDER
    else PERMUTE
  }

  function Stripped(optstring: string): string {
    if optstring != "" && (optstring[0] == '-' || optstring[0] == '+') then optstring[1..] else optstring
  }

  lemma StrippedKeepsNoLongW(optstring: string)
    requires NoLongW(optstring)
    ensures NoLongW(Stripped(optstring))
  {
    var t := Stripped(optstring);
    forall i | 0 <= i && i + 1 < |t|
      ensures !(t[i] == 'W' && t[i + 1] == ';')
    {
      if t != optstring {
        assert t[i] == optstring[i + 1] && t[i + 1] == optstring[i + 2];
        assert !(optstring[i + 1] == 'W' && optstring[(i + 1) + 1] == ';');
      }
    }
  }

  /** The code for a missing required argument. */
  function MissingCode(opts: string): char {
    if opts != "" && opts[0] == ':' then ':' else '?'
  }

  // ----- Whole runs ------------------------------------------------------------------

  function OptionsOnly(es: seq<Event>): seq<Event> {
    if es == [] then []
    else (if es[0].ret.Letter? then [es[0]] else []) + OptionsOnly(es[1..])
  }

  function OneEvent(st: Step): seq<Event> {
    [Event(st.ret, st.arg)]
  }

  lemma {:induction false} ParseSkip(opts: string, missing: char, a: seq<string>, i: nat)
    requires i <= |a|
    ensures OptionsOnly(Parse(opts, missing, a, i, "")) == OptionsOnly(Parse(opts, missing, a, SkipOrdinary(a, i), ""))
    decreases |a| - i
  {
    if i < |a| && NonOption(a[i]) {
      ParseSkip(opts, missing, a, i + 1);
      var rest := Parse(opts, missing, a, i + 1, "");
      assert a[i] != "--";
      assert ([Event(Ordinary, Some(a[i]))] + rest)[1..] == rest;
    }
  }

  /** What a permuting call reports, against what is left to report. */
  lemma ParsePermuted(opts: string, missing: char, a: seq<string>, i: nat, s: string)
    requires i <= |a| && (s != "" ==> i < |a|)
    ensures var left := OptionsOnly(Parse(opts, missing, a, i, s));
      match Outcome(PERMUTE, opts, missing, a, i, s)
      case Give(st) => left == OneEvent(st) + OptionsOnly(Parse(opts, missing, a, st.next, st.rest))
      case Stop(at) => left == []
  {
    hide LetterStep;
    if s == "" {
      ParseSkip(opts, missing, a, i);
    }
    var j := if s == "" then SkipOrdinary(a, i) else i;
    if s != "" || (j < |a| && a[j] != "--") {
      var letters := if s == "" then a[j][1..] else s;
      var st := LetterStep(opts, missing, a, j, letters);
      var rest := Parse(opts, missing, a, st.next, st.rest);
      assert Parse(opts, missing, a, j, letters) == OneEvent(st) + rest;
      assert (OneEvent(st) + rest)[1..] == rest;
    }
  }

  /** Position of the scan, as a measure that every reporting call lowers. */
  lemma OutcomeProgress(ord: Ordering, opts: string, missing: char, a: seq<string>, i: nat, s: string)
    requires i <= |a| && (s != "" ==> i < |a|)
    ensures match Outcome(ord, opts, missing, a, i, s)
      case Stop(at) => i <= at <= |a|
      case Give(st) =>
        && st.ret != Done && i <= st.next <= |a| && (st.rest != "" ==> st.next < |a|)
        && (st.next == i ==> st.rest != "" && (s != "" ==> |st.rest| < |s|))
  {}

  /** A complete run in the default mode: whatever the vector and the option
      string, the calls reach -1, report exactly the options in order, and
      leave the vector stably partitioned with optind at the first non-option. */
  method RunPermute(argv: array<string>, optstring: string) returns (events: seq<Event>, optind: nat)
    requires argv.Length >= 1 && NoLongW(optstring) && OrderingOf(optstring, false) == PERMUTE
    modifies argv
    ensures argv[..] == Partitioned(optstring, old(argv[..]), 1)
    ensures optind == 1 + OptionCount(optstring, old(argv[..]), 1)
    ensures events == OptionsOnly(Parse(optstring, MissingCode(optstring), old(argv[..]), 1, ""))
  {
    hide Select, Marks, Parse, Outcome, LetterStep, SkipOrdinary, NoLongW, Scanner.Valid, Scanner.Finished, Partitioned, OptionCount, OptionsOnly;
    ghost var a := argv[..];
    ghost var missing := MissingCode(optstring);
    ghost var all := OptionsOnly(Parse(optstring, missing, a, 1, ""));
    var scanner := new Scanner();
    ParsePermuted(optstring, missing, a, 1, "");
    OutcomeProgress(PERMUTE, optstring, missing, a, 1, "");
    assert [] + Marks(optstring, a, 1, "") == Marks(optstring, a, 1, "");
    var c := scanner.Getopt(argv, optstring, false);
    events := [];
    while c != Done
      invariant scanner.initialized && scanner.ordering == PERMUTE && scanner.orig == a && scanner.start == 1
      invariant c != Done ==>
        && scanner.Valid(argv)
        && 1 <= scanner.optind <= |a| && (scanner.nextchar != "" ==> scanner.optind < |a|)
        && scanner.AllMarks(optstring) == Marks(optstring, a, 1, "")
        && events + [Event(c, scanner.optarg)]
           + OptionsOnly(Parse(optstring, missing, a, scanner.optind, scanner.nextchar)) == all
      invariant c == Done ==> events == all && scanner.Finished(argv, Marks(optstring, a, 1, ""))
      decreases c != Done, |a| - scanner.optind, if scanner.nextchar == "" then 1 else 0, |scanner.nextchar|
    {
      events := events + [Event(c, scanner.optarg)];
      ParsePermuted(optstring, missing, a, scanner.optind, scanner.nextchar);
      OutcomeProgress(PERMUTE, optstring, missing, a, scanner.optind, scanner.nextchar);
      c := scanner.Getopt(argv, optstring, false);
    }
    optind := scanner.optind;
    scanner.FinishedPartition(argv, optstring);
  }

  /** The result of a complete permuting run holds the same elements. */
  lemma PartitionedPermutes(opts: string, a: seq<string>, start: nat)
    requires start <= |a|
    ensures multiset(Partitioned(opts, a, start)) == multiset(a)
    ensures |Partitioned(opts, a, start)| == |a| && Partitioned(opts, a, start)[..start] == a[..start]
  {
    var m := Marks(opts, a, start, "");
    SelectPermutes(a[start..], m);
    var o, n := Select(a[start..], m, true), Select(a[start..], m, false);
    assert a == a[..start] + a[start..];
    assert Partitioned(opts, a, start) == a[..start] + (o + n);
  }

  // ----- The orderings that leave the vector alone ------------------------------------------

  function UpToOrdinary(es: seq<Event>): seq<Event> {
    if es == [] || es[0].ret == Ordinary then [] else [es[0]] + UpToOrdinary(es[1..])
  }

  /** What a run reports of the events ahead: REQUIRE_ORDER stops at a non-option. */
  function Reported(ord: Ordering, es: seq<Event>): seq<Event> {
    if ord == REQUIRE_ORDER then UpToOrdinary(es) else es
  }

  /** What a call that does not permute reports, against what is left to report. */
  lemma ParseInOrder(ord: Ordering, opts: string, missing: char, a: seq<string>, i: nat, s: string)
    requires ord != PERMUTE && i <= |a| && (s != "" ==> i < |a|)
    ensures var left := Reported(ord, Parse(opts, missing, a, i, s));
      match Outcome(ord, opts, missing, a, i, s)
      case Give(st) => left == OneEvent(st) + Reported(ord, Parse(opts, missing, a, st.next, st.rest))
      case Stop(at) => left == []
  {
    hide LetterStep;
    if s == "" && i < |a| && a[i] != "--" && !NonOption(a[i]) {
      var letters := a[i][1..];
      assert Parse(opts, missing, a, i, s) == Parse(opts, missing, a, i, letters);
    }
    match Outcome(ord, opts, missing, a, i, s)
    case Stop(at) =>
    case Give(st) =>
      var rest := Parse(opts, missing, a, st.next, st.rest);
      assert (OneEvent(st) + rest)[1..] == rest;
  }

  /** Where a run that does not permute leaves optind: at the first element that
      stops it, or behind "--". */
  function LastIndex(ord: Ordering, opts: string, a: seq<string>, i: nat, s: string): nat
    requires i <= |a| && (s != "" ==> i < |a|)
    decreases |a| - i, if s == "" then 1 else 0, |s|
  {
    match Outcome(ord, opts, '?', a, i, s)
    case Stop(at) => if at < |a| && a[at] == "--" then at + 1 else at
    case Give(st) =>
      OutcomeProgress(ord, opts, '?', a, i, s);
      LastIndex(ord, opts, a, st.next, st.rest)
  }

  /** A whole run: the initialising call strips a prefix of the option string,
      the later ones do not. */
  function RunEvents(ord: Ordering, optstring: string, a: seq<string>): seq<Event>
    requires |a| >= 1
  {
    var opts := Stripped(optstring);
    match Outcome(ord, opts, MissingCode(opts), a, 1, "")
    case Stop(at) => []
    case Give(st) =>
      OutcomeProgress(ord, opts, MissingCode(opts), a, 1, "");
      OneEvent(st) + Reported(ord, Parse(optstring, MissingCode(optstring), a, st.next, st.rest))
  }

  function RunIndex(ord: Ordering, optstring: string, a: seq<string>): nat
    requires |a| >= 1
  {
    match Outcome(ord, Stripped(optstring), '?', a, 1, "")
    case Stop(at) => if at < |a| && a[at] == "--" then at + 1 else at
    case Give(st) =>
      OutcomeProgress(ord, Stripped(optstring), '?', a, 1, "");
      LastIndex(ord, optstring, a, st.next, st.rest)
  }

  /** The code for a missing argument does not steer the scan. */
  lemma SameOutcome(ord: Ordering, opts: string, missing: char, a: seq<string>, i: nat, s: string)
    requires i <= |a| && (s != "" ==> i < |a|)
    ensures match (Outcome(ord, opts, missing, a, i, s), Outcome(ord, opts, '?', a, i, s))
      case (Stop(x), Stop(y)) => x == y
      case (Give(x), Give(y)) => x.next == y.next && x.rest == y.rest
      case _ => false
  {
    var j := if ord == PERMUTE && s == "" then SkipOrdinary(a, i) else i;
    if s != "" {
      SameProgress(opts, missing, a, i, s);
    } else if j < |a| && !NonOption(a[j]) {
      SameProgress(opts, missing, a, j, a[j][1..]);
    }
    hide LetterStep, SkipOrdinary;
  }

  /** A complete run in RETURN_IN_ORDER or REQUIRE_ORDER, for any option string:
      it reaches -1, leaves the vector alone, and reports, in order, everything
      or the options in front of the first non-option, with optind there. */
  method RunInOrder(argv: array<string>, optstring: string, posixly: bool) returns (events: seq<Event>, optind: nat)
    requires argv.Length >= 1 && NoLongW(optstring) && OrderingOf(optstring, posixly) != PERMUTE
    modifies argv
    ensures argv[..] == old(argv[..])
    ensures events == RunEvents(OrderingOf(optstring, posixly), optstring, old(argv[..]))
    ensures optind == RunIndex(OrderingOf(optstring, posixly), optstring, old(argv[..]))
  {
    hide Select, Marks, Parse, Outcome, LetterStep, SkipOrdinary, NoLongW, Scanner.Valid, OrderingOf, Stripped, Reported;
    ghost var a, ord := argv[..], OrderingOf(optstring, posixly);
    ghost var missing := MissingCode(optstring);
    var scanner := new Scanner();
    OutcomeProgress(ord, Stripped(optstring), MissingCode(Stripped(optstring)), a, 1, "");
    SameOutcome(ord, Stripped(optstring), MissingCode(Stripped(optstring)), a, 1, "");
    var c := scanner.Getopt(argv, optstring, posixly);
    events := [];
    while c != Done
      invariant scanner.initialized && scanner.ordering == ord && scanner.orig == a
      invariant c != Done ==>
        && scanner.Valid(argv)
        && 1 <= scanner.optind <= |a| && (scanner.nextchar != "" ==> scanner.optind < |a|)
        && events + [Event(c, scanner.optarg)]
           + Reported(ord, Parse(optstring, missing, a, scanner.optind, scanner.nextchar)) == RunEvents(ord, optstring, a)
        && LastIndex(ord, optstring, a, scanner.optind, scanner.nextchar) == RunIndex(ord, optstring, a)
      invariant c == Done ==>
        events == RunEvents(ord, optstring, a) && argv[..] == a && scanner.optind == RunIndex(ord, optstring, a)
      decreases c != Done, |a| - scanner.optind, if scanner.nextchar == "" then 1 else 0, |scanner.nextchar|
    {
      events := events + [Event(c, scanner.optarg)];
      ParseInOrder(ord, optstring, missing, a, scanner.optind, scanner.nextchar);
      OutcomeProgress(ord, optstring, missing, a, scanner.optind, scanner.nextchar);
      SameOutcome(ord, optstring, missing, a, scanner.optind, scanner.nextchar);
      c := scanner.Getopt(argv, optstring, posixly);
    }
    optind := scanner.optind;
  }

  // ----- What the unstripped prefix does -------------------------------------------------------

  /** What a letter does with the text behind it. */
  datatype Use = Rejected | Bare | TakesRest | TakesNext | Lacks

  function UseOf(argument: Argument, rest: string, last: bool): Use {
    match argument
    case Unknown => Rejected
    case NoArgument => Bare
    case OptionalArgument => if rest == "" then Bare else TakesRest
    case RequiredArgument => if rest != "" then TakesRest else if last then Lacks else TakesNext
  }

  predicate IsPrefix(c: char) {
    c == '-' || c == '+'
  }

  predicate Silent(opts: string) {
    opts != "" && opts[0] == ':'
  }

  /** With the prefix still in front of the option string, the first of the
      letters `s` is answered otherwise: it is the prefix character itself and
      the two strings have different uses for it (a missing argument and an
      unknown letter are both answered with '?'); or its argument is missing,
      and the leading ':' that asks for the answer ':' is no longer first. */
  predicate Misread(p: char, opts: string, s: string, last: bool)
    requires s != ""
  {
    var given := UseOf(ArgumentOf([p] + opts, s[0]), s[1..], last);
    var meant := UseOf(ArgumentOf(opts, s[0]), s[1..], last);
    || (s[0] == p && given != meant && !(given == Lacks && meant == Rejected))
    || (meant == Lacks && Silent(opts))
  }

  /** The scan of the rest comes to a letter that is misread. */
  predicate Misreads(ord: Ordering, p: char, opts: string, a: seq<string>, i: nat, s: string)
    requires i <= |a| && (s != "" ==> i < |a|)
    decreases |a| - i, if s == "" then 1 else 0, |s|
  {
    if s != "" then
      var st := LetterStep(opts, '?', a, i, s);
      Misread(p, opts, s, i + 1 == |a|) || Misreads(ord, p, opts, a, st.next, st.rest)
    else if i == |a| || a[i] == "--" then false
    else if NonOption(a[i]) then ord != REQUIRE_ORDER && Misreads(ord, p, opts, a, i + 1, "")
    else Misreads(ord, p, opts, a, i, a[i][1..])
  }

  /** A call after the first comes to a letter that is misread. */
  predicate MisreadsLater(ord: Ordering, p: char, opts: string, a: seq<string>)
    requires |a| >= 1
  {
    match Outcome(ord, opts, '?', a, 1, "")
    case Stop(at) => false
    case Give(st) =>
      OutcomeProgress(ord, opts, '?', a, 1, "");
      Misreads(ord, p, opts, a, st.next, st.rest)
  }

  lemma PrefixLookup(p: char, opts: string, c: char)
    requires IsPrefix(p)
    ensures c != p ==> ArgumentOf([p] + opts, c) == ArgumentOf(opts, c)
    ensures c == p ==> ArgumentOf([p] + opts, c) != Unknown
  {
    var t := [p] + opts;
    assert t[1..] == opts;
  }

  /** One letter: the answers agree exactly when it is not misread, and then so
      does what is left. */
  lemma LetterMisread(p: char, opts: string, a: seq<string>, i: nat, s: string)
    requires IsPrefix(p) && i < |a| && s != ""
    ensures var given := LetterStep([p] + opts, '?', a, i, s);
      var meant := LetterStep(opts, MissingCode(opts), a, i, s);
      && (OneEvent(given) == OneEvent(meant) <==> !Misread(p, opts, s, i + 1 == |a|))
      && (!Misread(p, opts, s, i + 1 == |a|) ==> given == meant)
  {
    PrefixLookup(p, opts, s[0]);
    assert ArgumentOf(opts, ':') == Unknown;
    hide ArgumentOf;
  }

  /** What the two option strings are compared by: the options reported. */
  function Kept(ord: Ordering, es: seq<Event>): seq<Event> {
    if ord == REQUIRE_ORDER then UpToOrdinary(es) else OptionsOnly(es)
  }

  lemma KeptPrefix(ord: Ordering, e: Event, es: seq<Event>)
    ensures e.ret.Letter? ==> Kept(ord, [e] + es) == [e] + Kept(ord, es)
    ensures e.ret == Ordinary ==> Kept(ord, [e] + es) == if ord == REQUIRE_ORDER then [] else Kept(ord, es)
  {
    assert ([e] + es)[1..] == es;
  }

  lemma SameHead(d: Event, e: Event, xs: seq<Event>, ys: seq<Event>)
    ensures [d] + xs == [e] + ys <==> d == e && xs == ys
  {
    if [d] + xs == [e] + ys {
      assert d == ([d] + xs)[0] == ([e] + ys)[0] == e;
      assert xs == ([d] + xs)[1..] == ([e] + ys)[1..] == ys;
    }
  }

  /** A prefix left in front of the option string changes the options reported
      exactly when the scan comes to a letter that is misread. */
  lemma {:induction false} PrefixChanges(ord: Ordering, p: char, opts: string, a: seq<string>, i: nat, s: string)
    requires IsPrefix(p) && i <= |a| && (s != "" ==> i < |a|)
    ensures Kept(ord, Parse([p] + opts, '?', a, i, s)) == Kept(ord, Parse(opts, MissingCode(opts), a, i, s))
      <==> !Misreads(ord, p, opts, a, i, s)
    decreases |a| - i, if s == "" then 1 else 0, |s|
  {
    hide ArgumentOf, Misread, Kept, LetterStep;
    var prefixed, missing := [p] + opts, MissingCode(opts);
    if s != "" {
      var meant, given := LetterStep(opts, missing, a, i, s), LetterStep(prefixed, '?', a, i, s);
      LetterMisread(p, opts, a, i, s);
      SameProgress(opts, missing, a, i, s);
      var x, y := Parse(prefixed, '?', a, given.next, given.rest), Parse(opts, missing, a, meant.next, meant.rest);
      KeptPrefix(ord, OneEvent(given)[0], x);
      KeptPrefix(ord, OneEvent(meant)[0], y);
      SameHead(OneEvent(given)[0], OneEvent(meant)[0], Kept(ord, x), Kept(ord, y));
      if !Misread(p, opts, s, i + 1 == |a|) {
        PrefixChanges(ord, p, opts, a, meant.next, meant.rest);
      } else {
        assert OneEvent(given)[0] != OneEvent(meant)[0];
      }
    } else if i == |a| || a[i] == "--" {
    } else if NonOption(a[i]) {
      PrefixChanges(ord, p, opts, a, i + 1, "");
      KeptPrefix(ord, Event(Ordinary, Some(a[i])), Parse(opts, missing, a, i + 1, ""));
      KeptPrefix(ord, Event(Ordinary, Some(a[i])), Parse(prefixed, '?', a, i + 1, ""));
    } else {
      PrefixChanges(ord, p, opts, a, i, a[i][1..]);
    }
  }

  lemma {:induction false} KeptReported(ord: Ordering, es: seq<Event>)
    ensures Kept(ord, Reported(ord, es)) == Kept(ord, es)
  {
    if ord == REQUIRE_ORDER && es != [] && es[0].ret != Ordinary {
      KeptReported(ord, es[1..]);
      assert ([es[0]] + UpToOrdinary(es[1..]))[1..] == UpToOrdinary(es[1..]);
    }
  }

  lemma PrefixIsStripped(p: char, opts: string)
    requires IsPrefix(p)
    ensures Stripped([p] + opts) == opts && MissingCode([p] + opts) == '?'
  {
    assert ([p] + opts)[1..] == opts;
  }

  /** A run with a prefix reports the options that the string behind the prefix
      asks for exactly when no call after the first misreads a letter. */
  lemma PrefixedRunAgrees(ord: Ordering, p: char, opts: string, a: seq<string>)
    requires ord != PERMUTE && IsPrefix(p) && |a| >= 1
    ensures Kept(ord, RunEvents(ord, [p] + opts, a)) == Kept(ord, Parse(opts, MissingCode(opts), a, 1, ""))
      <==> !MisreadsLater(ord, p, opts, a)
  {
    hide LetterStep, Misreads, Parse, Kept, Reported, Stripped;
    var missing := MissingCode(opts);
    PrefixIsStripped(p, opts);
    ParseInOrder(ord, opts, missing, a, 1, "");
    SameOutcome(ord, opts, missing, a, 1, "");
    KeptReported(ord, Parse(opts, missing, a, 1, ""));
    match Outcome(ord, opts, missing, a, 1, "")
    case Stop(at) =>
    case Give(st) =>
      OutcomeProgress(ord, opts, missing, a, 1, "");
      var x, y := Parse([p] + opts, '?', a, st.next, st.rest), Parse(opts, missing, a, st.next, st.rest);
      PrefixChanges(ord, p, opts, a, st.next, st.rest);
      KeptReported(ord, x);
      KeptReported(ord, y);
      KeptPrefix(ord, OneEvent(st)[0], Reported(ord, x));
      KeptPrefix(ord, OneEvent(st)[0], Reported(ord, y));
      SameHead(OneEvent(st)[0], OneEvent(st)[0], Kept(ord, x), Kept(ord, y));
      OrdinaryStops(ord, opts, missing, a);
  }

  /** With REQUIRE_ORDER nothing but letters is handed out. */
  lemma OrdinaryStops(ord: Ordering, opts: string, missing: char, a: seq<string>)
    requires |a| >= 1
    ensures match Outcome(ord, opts, missing, a, 1, "")
      case Stop(at) => true
      case Give(st) => st.ret.Letter? || (st.ret == Ordinary && ord != REQUIRE_ORDER)
  {}

  /** -a takes no argument and there is no option '-', but behind the prefix '-'
      the cluster "-a-" is answered with 'a' and then '-', not with '?'. */
  lemma DashTakenForLetter()
    ensures var args := ["prog", "-a-"];
      && RunEvents(RETURN_IN_ORDER, "-a", args) == [Event(Letter('a'), None), Event(Letter('-'), None)]
      && OptionsOnly(Parse("a", '?', args, 1, "")) == [Event(Letter('a'), None), Event(Letter('?'), None)]
      && MisreadsLater(RETURN_IN_ORDER, '-', "a", args)
  {
    var args := ["prog", "-a-"];
    assert Stripped("-a") == "a" && args[1][1..] == "a-" && "a-"[1..] == "-" && "-"[1..] == "";
    var first := LetterStep("a", '?', args, 1, "a-");
    assert first == Step(Letter('a'), None, 1, "-");
    assert Index("-a", '-') == "-a" && Index("a", '-') == "";
    assert LetterStep("-a", '?', args, 1, "-") == Step(Letter('-'), None, 2, "");
    assert LetterStep("a", '?', args, 1, "-") == Step(Letter('?'), None, 2, "");
    assert Parse("-a", '?', args, 1, "-") == OneEvent(Step(Letter('-'), None, 2, "")) + Parse("-a", '?', args, 2, "");
    assert Parse("a", '?', args, 1, "-") == OneEvent(Step(Letter('?'), None, 2, "")) + Parse("a", '?', args, 2, "");
    assert Outcome(RETURN_IN_ORDER, "a", '?', args, 1, "") == Give(first);
    assert Parse("a", '?', args, 1, "") == Parse("a", '?', args, 1, "a-") == OneEvent(first) + Parse("a", '?', args, 1, "-");
    KeptPrefix(RETURN_IN_ORDER, OneEvent(first)[0], Parse("a", '?', args, 1, "-"));
    var unknown := Step(Letter('?'), None, 2, "");
    assert Parse("a", '?', args, 2, "") == [];
    assert OneEvent(unknown) + [] == OneEvent(unknown) && OptionsOnly([]) == [];
    assert OptionsOnly(OneEvent(unknown)) == OneEvent(unknown);
    assert OneEvent(first) + OneEvent(unknown) == [Event(Letter('a'), None), Event(Letter('?'), None)];
    assert Kept(RETURN_IN_ORDER, Parse("a", '?', args, 1, "")) == OptionsOnly(Parse("a", '?', args, 1, ""));
    assert Misread('-', "a", "-", true) by { PrefixLookup('-', "a", '-'); }
  }

  /** The silent mode suffers too: behind the prefix, a missing argument is
      answered with '?', although the string behind it begins with ':'. The
      same goes for '+', a later "+" counting as an option letter. */
  lemma SilenceLost()
    ensures MisreadsLater(RETURN_IN_ORDER, '-', ":a:", ["prog", "-x", "-a"])
    ensures MisreadsLater(REQUIRE_ORDER, '+', "a", ["prog", "-a+"])
  {
    var args := ["prog", "-x", "-a"];
    assert args[1][1..] == "x" && args[2][1..] == "a" && "x"[1..] == "" && "a"[1..] == "";
    assert Index(":a:", 'x') == "" && Index(":a:", 'a') == "a:";
    assert LetterStep(":a:", '?', args, 1, "x") == Step(Letter('?'), None, 2, "");
    assert Misread('-', ":a:", "a", true);
    assert Misreads(RETURN_IN_ORDER, '-', ":a:", args, 2, "a");
    var plus := ["prog", "-a+"];
    assert plus[1][1..] == "a+" && "a+"[1..] == "+" && "+"[1..] == "";
    assert LetterStep("a", '?', plus, 1, "a+") == Step(Letter('a'), None, 1, "+");
    assert Index("a", '+') == "";
    assert Misread('+', "a", "+", true) by { PrefixLookup('+', "a", '+'); }
  }

  /** POSIXLY_CORRECT needs no prefix, so there all calls use one string. */
  lemma PlainRun(opts: string, a: seq<string>)
    requires |a| >= 1 && Stripped(opts) == opts
    ensures RunEvents(REQUIRE_ORDER, opts, a) == UpToOrdinary(Parse(opts, MissingCode(opts), a, 1, ""))
  {
    hide LetterStep, Parse;
    ParseInOrder(REQUIRE_ORDER, opts, MissingCode(opts), a, 1, "");
  }

  lemma PrefixKeepsNoLongW(p: char, opts: string)
    requires NoLongW(opts) && IsPrefix(p)
    ensures NoLongW([p] + opts)
  {
    var t := [p] + opts;
    forall i | 0 <= i && i + 1 < |t|
      ensures !(t[i] == 'W' && t[i + 1] == ';')
    {
      if i > 0 {
        assert t[i] == opts[i - 1] && t[i + 1] == opts[(i - 1) + 1];
      }
    }
  }

  /** Four runs on the same arguments: permuting, in order behind '-', strict
      behind '+', and strict by POSIXLY_CORRECT. */
  method CompareOrderings(args: seq<string>, opts: string)
    returns (permuted: seq<Event>, inOrder: seq<Event>, strict: seq<Event>, posix: seq<Event>)
    requires |args| >= 1 && NoLongW(opts) && Stripped(opts) == opts
    ensures OptionsOnly(inOrder) == permuted <==> !MisreadsLater(RETURN_IN_ORDER, '-', opts, args)
    ensures strict == posix <==> !MisreadsLater(REQUIRE_ORDER, '+', opts, args)
  {
    hide Parse, MisreadsLater, RunEvents, RunIndex;
    PrefixKeepsNoLongW('-', opts);
    PrefixKeepsNoLongW('+', opts);
    var optind;
    var v := Vector(args);
    permuted, optind := RunPermute(v, opts);
    v := Vector(args);
    inOrder, optind := RunInOrder(v, "-" + opts, false);
    v := Vector(args);
    strict, optind := RunInOrder(v, "+" + opts, false);
    posix, optind := RunInOrder(v, opts, true);
    PrefixedRunAgrees(RETURN_IN_ORDER, '-', opts, args);
    PrefixedRunAgrees(REQUIRE_ORDER, '+', opts, args);
    PlainRun(opts, args);
    StrictIsKept("+" + opts, args);
    assert ['-'] + opts == "-" + opts && ['+'] + opts == "+" + opts;
  }

  method Vector(args: seq<string>) returns (argv: array<string>)
    ensures fresh(argv) && argv[..] == args
  {
    argv := new string[|args|](i requires 0 <= i < |args| => args[i]);
  }

  /** A strict run reports nothing behind a non-option in the first place. */
  lemma StrictIsKept(optstring: string, a: seq<string>)
    requires |a| >= 1
    ensures Kept(REQUIRE_ORDER, RunEvents(REQUIRE_ORDER, optstring, a)) == RunEvents(REQUIRE_ORDER, optstring, a)
  {
    hide LetterStep, Parse;
    var opts := Stripped(optstring);
    OrdinaryStops(REQUIRE_ORDER, opts, MissingCode(opts), a);
    match Outcome(REQUIRE_ORDER, opts, MissingCode(opts), a, 1, "")
    case Stop(at) =>
    case Give(st) =>
      OutcomeProgress(REQUIRE_ORDER, opts, MissingCode(opts), a, 1, "");
      var rest := Parse(optstring, MissingCode(optstring), a, st.next, st.rest);
      KeptReported(REQUIRE_ORDER, rest);
      KeptPrefix(REQUIRE_ORDER, OneEvent(st)[0], UpToOrdinary(rest));
  }

  // ----- Which argument a letter gets ---------------------------------------------------------

  lemma {:induction false} IndexAt(opts: string, pre: string, c: char, post: string)
    requires opts == pre + [c] + post && c !in pre
    ensures Index(opts, c) == [c] + post
  {
    if pre == "" {
      assert opts == [c] + post;
    } else {
      assert opts[1..] == pre[1..] + [c] + post && opts[0] == pre[0];
      assert c !in pre[1..];
      IndexAt(opts[1..], pre[1..], c, post);
    }
  }

  lemma {:induction false} IndexNowhere(opts: string, c: char)
    requires c !in opts
    ensures Index(opts, c) == ""
  {
    if opts != "" {
      IndexNowhere(opts[1..], c);
    }
  }

  /** What one letter means to a call, to what is left to report, and to which
      elements are used up: `next` and `rest` say where the scan goes on. */
  ghost predicate Gives(opts: string, missing: char, a: seq<string>, i: nat, s: string, e: Event, next: nat, rest: string)
    requires i < |a| && s != ""
  {
    && i <= next <= |a| && (rest != "" ==> next < |a|)
    && (forall ord :: Outcome(ord, opts, missing, a, i, s) == Give(Step(e.ret, e.arg, next, rest)))
    && Parse(opts, missing, a, i, s) == [e] + Parse(opts, missing, a, next, rest)
    && Marks(opts, a, i, s) == seq(next - i, _ => true) + Marks(opts, a, next, rest)
  }

  lemma GivenByStep(opts: string, missing: char, a: seq<string>, i: nat, s: string)
    requires i < |a| && s != ""
    ensures var st := LetterStep(opts, missing, a, i, s);
      Gives(opts, missing, a, i, s, Event(st.ret, st.arg), st.next, st.rest)
  {
    MarksLetter(opts, missing, a, i, s);
    hide LetterStep, Marks;
  }

  /** A letter followed by one ':' takes the text behind it in its element, else
      the next element, as it is; at the end of the vector its argument is missing. */
  lemma RequiredArgumentTaken(opts: string, pre: string, c: char, post: string, missing: char, a: seq<string>, i: nat, s: string)
    requires opts == pre + [c, ':'] + post && c !in pre && c != ':' && (post == "" || post[0] != ':')
    requires i < |a| && s != "" && s[0] == c
    ensures |s| == 1 && i + 1 < |a| ==> Gives(opts, missing, a, i, s, Event(Letter(c), Some(a[i + 1])), i + 2, "")
    ensures |s| == 1 && i + 1 == |a| ==> Gives(opts, missing, a, i, s, Event(Letter(missing), None), i + 1, "")
    ensures |s| > 1 ==> Gives(opts, missing, a, i, s, Event(Letter(c), Some(s[1..])), i + 1, "")
    ensures Complains(opts, a, i, s) <==> |s| == 1 && i + 1 == |a|
  {
    assert opts == pre + [c] + ([':'] + post);
    IndexAt(opts, pre, c, [':'] + post);
    GivenByStep(opts, missing, a, i, s);
    hide Gives;
  }

  /** A letter followed by two takes the text behind it, and never the next element. */
  lemma OptionalArgumentTaken(opts: string, pre: string, c: char, post: string, missing: char, a: seq<string>, i: nat, s: string)
    requires opts == pre + [c, ':', ':'] + post && c !in pre && c != ':'
    requires i < |a| && s != "" && s[0] == c
    ensures |s| == 1 ==> Gives(opts, missing, a, i, s, Event(Letter(c), None), i + 1, "")
    ensures |s| > 1 ==> Gives(opts, missing, a, i, s, Event(Letter(c), Some(s[1..])), i + 1, "")
    ensures !Complains(opts, a, i, s)
  {
    assert opts == pre + [c] + ([':', ':'] + post);
    IndexAt(opts, pre, c, [':', ':'] + post);
    GivenByStep(opts, missing, a, i, s);
    hide Gives;
  }

  /** A letter without ':' takes nothing; the next letter, or element, follows. */
  lemma NoArgumentTaken(opts: string, pre: string, c: char, post: string, missing: char, a: seq<string>, i: nat, s: string)
    requires opts == pre + [c] + post && c !in pre && c != ':' && (post == "" || post[0] != ':')
    requires i < |a| && s != "" && s[0] == c
    ensures Gives(opts, missing, a, i, s, Event(Letter(c), None), if |s| == 1 then i + 1 else i, s[1..])
    ensures !Complains(opts, a, i, s)
  {
    IndexAt(opts, pre, c, post);
    GivenByStep(opts, missing, a, i, s);
    hide Gives;
  }

  /** Any other letter, and ':' itself, is answered with '?'. */
  lemma UnknownLetter(opts: string, missing: char, a: seq<string>, i: nat, s: string)
    requires i < |a| && s != "" && (s[0] !in opts || s[0] == ':')
    ensures Gives(opts, missing, a, i, s, Event(Letter('?'), None), if |s| == 1 then i + 1 else i, s[1..])
    ensures Complains(opts, a, i, s)
  {
    if s[0] !in opts {
      IndexNowhere(opts, s[0]);
    }
    GivenByStep(opts, missing, a, i, s);
    hide Gives;
  }

  // ----- Runs written out ------------------------------------------------------------------------

  function ExampleArgs(): seq<string> {
    ["prog", "file", "-a", "-o", "out", "-", "-bx", "-ab", "--", "-c"]
  }

  const ExampleOptions := "ao:b::"

  /** What is left to report and to mark from an element on. */
  ghost predicate Left(opts: string, a: seq<string>, i: nat, s: string, es: seq<Event>, m: seq<bool>) {
    i <= |a| && (s != "" ==> i < |a|) && Parse(opts, '?', a, i, s) == es && Marks(opts, a, i, s) == m
  }

  lemma LetterLeft(opts: string, a: seq<string>, i: nat, s: string, e: Event, next: nat, rest: string, es: seq<Event>, m: seq<bool>)
    requires i < |a| && s != "" && Gives(opts, '?', a, i, s, e, next, rest) && Left(opts, a, next, rest, es, m)
    ensures next >= i && Left(opts, a, i, s, [e] + es, seq(next - i, _ => true) + m)
  {
    hide Parse, Marks, Outcome;
  }

  lemma ElementLeft(opts: string, a: seq<string>, i: nat, es: seq<Event>, m: seq<bool>)
    requires i < |a| && a[i] != "--"
    ensures NonOption(a[i]) && Left(opts, a, i + 1, "", es, m) ==> Left(opts, a, i, "", [Event(Ordinary, Some(a[i]))] + es, [false] + m)
    ensures !NonOption(a[i]) && Left(opts, a, i, a[i][1..], es, m) ==> Left(opts, a, i, "", es, m)
  {
    hide LetterStep;
  }

  lemma DashesLeft(opts: string, a: seq<string>, i: nat)
    requires i < |a| && a[i] == "--"
    ensures Left(opts, a, i, "", [], [true] + seq(|a| - i - 1, _ => false))
  {}

  /** The example, element by element from its end. */
  lemma ExampleLeft()
    ensures Left(ExampleOptions, ExampleArgs(), 1, "",
      [Event(Ordinary, Some("file")), Event(Letter('a'), None), Event(Letter('o'), Some("out")), Event(Ordinary, Some("-")),
       Event(Letter('b'), Some("x")), Event(Letter('a'), None), Event(Letter('b'), None)],
      [false, true, true, true, false, true, true, true, false])
  {
    hide Left, Gives, Complains;
    var o, a := ExampleOptions, ExampleArgs();
    assert a[2][1..] == "a" && a[3][1..] == "o" && a[6][1..] == "bx" && a[7][1..] == "ab";
    assert "a"[1..] == "" && "bx"[1..] == "x" && "ab"[1..] == "b";
    DashesLeft(o, a, 8);
    var m8 := [true] + seq(1, _ => false);
    OptionalArgumentTaken(o, "ao:", 'b', "", '?', a, 7, "b");
    LetterLeft(o, a, 7, "b", Event(Letter('b'), None), 8, "", [], m8);
    NoArgumentTaken(o, "", 'a', "o:b::", '?', a, 7, "ab");
    var e7, m7 := [Event(Letter('b'), None)] + [], seq(1, _ => true) + m8;
    LetterLeft(o, a, 7, "ab", Event(Letter('a'), None), 7, "b", e7, m7);
    var e6, m6 := [Event(Letter('a'), None)] + e7, seq(0, _ => true) + m7;
    ElementLeft(o, a, 7, e6, m6);
    OptionalArgumentTaken(o, "ao:", 'b', "", '?', a, 6, "bx");
    LetterLeft(o, a, 6, "bx", Event(Letter('b'), Some("x")), 7, "", e6, m6);
    var e5, m5 := [Event(Letter('b'), Some("x"))] + e6, seq(1, _ => true) + m6;
    ElementLeft(o, a, 6, e5, m5);
    ElementLeft(o, a, 5, e5, m5);
    var e4, m4 := [Event(Ordinary, Some("-"))] + e5, [false] + m5;
    RequiredArgumentTaken(o, "a", 'o', "b::", '?', a, 3, "o");
    LetterLeft(o, a, 3, "o", Event(Letter('o'), Some("out")), 5, "", e4, m4);
    var e3, m3 := [Event(Letter('o'), Some("out"))] + e4, seq(2, _ => true) + m4;
    ElementLeft(o, a, 3, e3, m3);
    NoArgumentTaken(o, "", 'a', "o:b::", '?', a, 2, "a");
    LetterLeft(o, a, 2, "a", Event(Letter('a'), None), 3, "", e3, m3);
    var e2, m2 := [Event(Letter('a'), None)] + e3, seq(1, _ => true) + m3;
    ElementLeft(o, a, 2, e2, m2);
    ElementLeft(o, a, 1, e2, m2);
    assert [Event(Ordinary, Some("file"))] + e2 ==
      [Event(Ordinary, Some("file")), Event(Letter('a'), None), Event(Letter('o'), Some("out")), Event(Ordinary, Some("-")),
       Event(Letter('b'), Some("x")), Event(Letter('a'), None), Event(Letter('b'), None)];
    assert [false] + m2 == [false, true, true, true, false, true, true, true, false];
  }

  lemma ExampleOptionsOnly()
    ensures OptionsOnly(
      [Event(Ordinary, Some("file")), Event(Letter('a'), None), Event(Letter('o'), Some("out")), Event(Ordinary, Some("-")),
       Event(Letter('b'), Some("x")), Event(Letter('a'), None), Event(Letter('b'), None)])
      == [Event(Letter('a'), None), Event(Letter('o'), Some("out")), Event(Letter('b'), Some("x")), Event(Letter('a'), None), Event(Letter('b'), None)]
  {
    hide OptionsOnly;
    var tail := [Event(Letter('b'), Some("x")), Event(Letter('a'), None), Event(Letter('b'), None)];
    OnlyLetters(tail);
    var dash := [Event(Ordinary, Some("-"))] + tail;
    OnlyStep(dash);
    assert dash[1..] == tail;
    var front := [Event(Letter('a'), None), Event(Letter('o'), Some("out"))];
    OnlyLetters(front);
    OptionsOnlyPrefix(front, dash);
    var all := [Event(Ordinary, Some("file"))] + (front + dash);
    OnlyStep(all);
    assert all[1..] == front + dash;
    assert all == [Event(Ordinary, Some("file")), Event(Letter('a'), None), Event(Letter('o'), Some("out")), Event(Ordinary, Some("-")),
       Event(Letter('b'), Some("x")), Event(Letter('a'), None), Event(Letter('b'), None)];
    assert front + tail == [Event(Letter('a'), None), Event(Letter('o'), Some("out")), Event(Letter('b'), Some("x")), Event(Letter('a'), None), Event(Letter('b'), None)];
  }

  lemma {:induction false} OptionsOnlyPrefix(xs: seq<Event>, ys: seq<Event>)
    ensures OptionsOnly(xs + ys) == OptionsOnly(xs) + OptionsOnly(ys)
  {
    hide OptionsOnly;
    if xs == [] {
      assert xs + ys == ys;
      OnlyNothing();
    } else {
      assert (xs + ys)[1..] == xs[1..] + ys;
      OptionsOnlyPrefix(xs[1..], ys);
      OnlyStep(xs + ys);
      OnlyStep(xs);
      Associate([xs[0]], OptionsOnly(xs[1..]), OptionsOnly(ys));
    }
  }

  lemma OnlyNothing()
    ensures OptionsOnly([]) == []
  {}

  lemma {:induction false} OnlyLetters(es: seq<Event>)
    requires forall k | 0 <= k < |es| :: es[k].ret.Letter?
    ensures OptionsOnly(es) == es
  {
    if es != [] {
      OnlyLetters(es[1..]);
    }
  }

  lemma OnlyStep(es: seq<Event>)
    requires es != []
    ensures OptionsOnly(es) == if es[0].ret.Letter? then [es[0]] + OptionsOnly(es[1..]) else OptionsOnly(es[1..])
  {}

  /** Which elements a list of marks selects. */
  lemma SelectThree(xs: seq<string>, m: seq<bool>, want: bool)
    requires |xs| == |m| && |xs| >= 3
    ensures Select(xs, m, want) ==
      (if m[0] == want then [xs[0]] else []) + ((if m[1] == want then [xs[1]] else [])
        + ((if m[2] == want then [xs[2]] else []) + Select(xs[3..], m[3..], want)))
  {
    hide Select;
    assert xs[1..][1..] == xs[2..] && m[1..][1..] == m[2..] && xs[2..][1..] == xs[3..] && m[2..][1..] == m[3..];
    SelectFirst(xs, m, want);
    SelectFirst(xs[1..], m[1..], want);
    SelectFirst(xs[2..], m[2..], want);
  }

  lemma SelectFirst(xs: seq<string>, m: seq<bool>, want: bool)
    requires |xs| == |m| && xs != []
    ensures Select(xs, m, want) == (if m[0] == want then [xs[0]] else []) + Select(xs[1..], m[1..], want)
  {}

  lemma ExampleSelected()
    ensures var m := [false, true, true, true, false, true, true, true, false];
      && Select(ExampleArgs()[1..], m, true) == ["-a", "-o", "out", "-bx", "-ab", "--"]
      && Select(ExampleArgs()[1..], m, false) == ["file", "-", "-c"]
  {
    var xs, m := ExampleArgs()[1..], [false, true, true, true, false, true, true, true, false];
    hide Select;
    SelectedBy(xs, m, true);
    SelectedBy(xs, m, false);
    assert xs == ["file", "-a", "-o", "out", "-", "-bx", "-ab", "--", "-c"];
  }

  lemma SelectedBy(xs: seq<string>, m: seq<bool>, want: bool)
    requires |xs| == 9 && m == [false, true, true, true, false, true, true, true, false]
    ensures Select(xs, m, want) == if want then [xs[1], xs[2], xs[3], xs[5], xs[6], xs[7]] else [xs[0], xs[4], xs[8]]
  {
    hide Select;
    SelectThree(xs, m, want);
    SelectThree(xs[3..], m[3..], want);
    SelectThree(xs[6..], m[6..], want);
    assert xs[3..][3..] == xs[6..] && m[3..][3..] == m[6..];
    assert xs[6..][3..] == [] && m[6..][3..] == [];
    assert Select([], [], want) == [] by { NothingSelected(want); }
  }

  lemma NothingSelected(want: bool)
    ensures Select([], [], want) == []
  {}

  /** A permuting run of prog file -a -o out - -bx -ab -- -c with the options
      "ao:b::": what the calls report, and the vector and optind they leave. */
  method RunExample() returns (events: seq<Event>, optind: nat, args: seq<string>)
    ensures events ==
      [Event(Letter('a'), None), Event(Letter('o'), Some("out")), Event(Letter('b'), Some("x")), Event(Letter('a'), None), Event(Letter('b'), None)]
    ensures args == ["prog", "-a", "-o", "out", "-bx", "-ab", "--", "file", "-", "-c"] && optind == 7
  {
    hide Parse, Marks, Select, OptionsOnly;
    ExampleLeft();
    ExampleOptionsOnly();
    ExampleSelected();
    var argv := Vector(ExampleArgs());
    events, optind := RunPermute(argv, ExampleOptions);
    args := argv[..];
    assert ExampleArgs()[..1] == ["prog"];
  }

  /** Strict and in-order runs of prog -a file -a with the option "a". */
  method RunOthers() returns (strict: seq<Event>, i: nat, inOrder: seq<Event>, j: nat)
    ensures strict == [Event(Letter('a'), None)] && i == 2
    ensures inOrder == [Event(Letter('a'), None), Event(Ordinary, Some("file")), Event(Letter('a'), None)] && j == 4
  {
    hide RunEvents, RunIndex;
    var args := ["prog", "-a", "file", "-a"];
    StrictWrittenOut();
    InOrderWrittenOut();
    var argv := Vector(args);
    strict, i := RunInOrder(argv, "+a", false);
    inOrder, j := RunInOrder(argv, "-a", false);
  }

  lemma StrictWrittenOut()
    ensures var args := ["prog", "-a", "file", "-a"];
      && OrderingOf("+a", false) == REQUIRE_ORDER
      && RunEvents(REQUIRE_ORDER, "+a", args) == [Event(Letter('a'), None)] && RunIndex(REQUIRE_ORDER, "+a", args) == 2
  {
    var args := ["prog", "-a", "file", "-a"];
    assert Stripped("+a") == "a" && args[1][1..] == "a" && "a"[1..] == "";
    NoArgumentTaken("a", "", 'a', "", '?', args, 1, "a");
    hide LetterStep, Marks;
    assert Parse("+a", '?', args, 2, "")[0] == Event(Ordinary, Some("file"));
    assert UpToOrdinary(Parse("+a", '?', args, 2, "")) == [];
  }

  lemma InOrderWrittenOut()
    ensures var args := ["prog", "-a", "file", "-a"];
      && OrderingOf("-a", false) == RETURN_IN_ORDER
      && RunEvents(RETURN_IN_ORDER, "-a", args) == [Event(Letter('a'), None), Event(Ordinary, Some("file")), Event(Letter('a'), None)]
      && RunIndex(RETURN_IN_ORDER, "-a", args) == 4
  {
    var args := ["prog", "-a", "file", "-a"];
    var e := Event(Letter('a'), None);
    assert Stripped("-a") == "a" && args[1][1..] == "a" && args[3][1..] == "a" && "a"[1..] == "";
    NoArgumentTaken("a", "", 'a', "", '?', args, 1, "a");
    NoArgumentTaken("-a", "-", 'a', "", '?', args, 3, "a");
    hide LetterStep, Marks;
    assert Parse("-a", '?', args, 4, "") == [] && Parse("-a", '?', args, 3, "") == Parse("-a", '?', args, 3, "a") == [e];
    assert Parse("-a", '?', args, 2, "") == [Event(Ordinary, Some("file")), e];
  }
}
