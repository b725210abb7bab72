/** The menu logic of the text interface: the curses key loop, the numbered text menu that
    re-prompts, the unchecked menu of the tuitest variant, and the configuration status
    line. Keys and typed lines are given as sequences; when they run out before a choice
    is made the menu is still Waiting. */
module Menu {
  import opened Text

  /** curses.KEY_UP, curses.KEY_DOWN, curses.KEY_ENTER and ord('q'). */
  const KeyUp := 259
  const KeyDown := 258
  const KeyEnter := 343
  const KeyQ := 113

  predicate IsEnter(k: int) { k == KeyEnter || k == 10 || k == 13 }

  /** A key that ends the loop. */
  predicate IsStop(k: int) { k == KeyQ || IsEnter(k) }

  datatype MenuOutcome = Cancelled | Chosen(index: int) | Waiting

  // ------------------------------------------------------------- the curses key loop

  /** The effect of a non-stopping key on the selection: Up and Down move within the
      options, every other key leaves it. */
  function Move(n: nat, sel: nat, k: int): (s: nat)
    requires sel < n
    ensures s < n
    ensures k == KeyUp && sel > 0 ==> s == sel - 1
    ensures k == KeyDown && sel < n - 1 ==> s == sel + 1
    ensures !(k == KeyUp && sel > 0) && !(k == KeyDown && sel < n - 1) ==> s == sel
  {
    if k == KeyUp && sel > 0 then sel - 1
    else if k == KeyDown && sel < n - 1 then sel + 1
    else sel
  }

  /** The selection after a run of keys. */
  function Position(n: nat, sel: nat, keys: seq<int>): (s: nat)
    requires sel < n
    ensures s < n
    decreases |keys|
  {
    if keys == [] then sel else Position(n, Move(n, sel, keys[0]), keys[1..])
  }

  /** The key loop, key by key: the arrow tests come first, then 'q', then Enter. */
  function KeyMenu(n: nat, sel: nat, keys: seq<int>): (r: MenuOutcome)
    requires sel < n
    ensures r.Chosen? ==> 0 <= r.index < n
    ensures keys == [] ==> r == Waiting
    decreases |keys|
  {
    if keys == [] then Waiting
    else
      var k := keys[0];
      if k == KeyUp && sel > 0 then KeyMenu(n, sel - 1, keys[1..])
      else if k == KeyDown && sel < n - 1 then KeyMenu(n, sel + 1, keys[1..])
      else if k == KeyQ then Cancelled
      else if IsEnter(k) then Chosen(sel)
      else KeyMenu(n, sel, keys[1..])
  }

  /** loop() of run_curses_menu in grepo2_3.6.py, grepo2_3.7.1.py and grepo2_3.7.4.3.py;
      draw() indexes options[sel], so the source needs at least one option. */
  method RunCursesMenu(n: nat, keys: seq<int>) returns (r: MenuOutcome)
    requires n >= 1
    ensures r == KeyMenu(n, 0, keys)
  {
    var sel := 0;
    var i := 0;
    while i < |keys|
      invariant 0 <= i <= |keys| && sel < n
      invariant KeyMenu(n, sel, keys[i..]) == KeyMenu(n, 0, keys)
    {
      assert keys[i..][1..] == keys[i + 1..];
      var k := keys[i];
      if k == KeyUp && sel > 0 {
        sel := sel - 1;
      } else if k == KeyDown && sel < n - 1 {
        sel := sel + 1;
      } else if k == KeyQ {
        return Cancelled;
      } else if k == KeyEnter || k == 10 || k == 13 {
        return Chosen(sel);
      }
      i := i + 1;
    }
    return Waiting;
  }

  /** The index of the first key that ends the loop, |keys| when there is none. */
  function FirstStop(keys: seq<int>): (j: nat)
    ensures j <= |keys|
    ensures j < |keys| ==> IsStop(keys[j])
    ensures forall i :: 0 <= i < j ==> !IsStop(keys[i])
    decreases |keys|
  {
    if keys == [] then 0
    else if IsStop(keys[0]) then 0
    else 1 + FirstStop(keys[1..])
  }

  /** The outcome is decided by the first stopping key alone: 'q' cancels, Enter chooses
      the selection the arrows before it led to, and without one the menu waits. */
  lemma {:induction false} KeyMenuDecided(n: nat, sel: nat, keys: seq<int>)
    requires sel < n
    ensures var j := FirstStop(keys);
            var r := KeyMenu(n, sel, keys);
            (r.Waiting? <==> j == |keys|) &&
            (r.Cancelled? <==> j < |keys| && keys[j] == KeyQ) &&
            (r.Chosen? <==> j < |keys| && IsEnter(keys[j])) &&
            (r.Chosen? ==> r.index == Position(n, sel, keys[..j]))
    decreases |keys|
  {
    if keys != [] {
      var k := keys[0];
      if IsStop(k) {
        assert keys[..0] == [];
      } else {
        KeyMenuDecided(n, Move(n, sel, k), keys[1..]);
        var j := FirstStop(keys[1..]);
        assert keys[..j + 1][1..] == keys[1..][..j];
      }
    }
  }

  /** A chosen index always names an option. */
  lemma ChosenInRange(n: nat, keys: seq<int>)
    requires n >= 1
    ensures KeyMenu(n, 0, keys).Chosen? ==> 0 <= KeyMenu(n, 0, keys).index < n
  {
    KeyMenuDecided(n, 0, keys);
  }

  /** Up on the first option and Down on the last one change nothing. */
  lemma ClampedKeys(n: nat, keys: seq<int>)
    requires n >= 1
    ensures KeyMenu(n, 0, [KeyUp] + keys) == KeyMenu(n, 0, keys)
    ensures KeyMenu(n, n - 1, [KeyDown] + keys) == KeyMenu(n, n - 1, keys)
  {
    assert ([KeyUp] + keys)[1..] == keys;
    assert ([KeyDown] + keys)[1..] == keys;
  }

  /** Only lower-case 'q' cancels: 'Q' is an ordinary key. */
  lemma UpperQIgnored(n: nat, keys: seq<int>)
    requires n >= 1
    ensures KeyMenu(n, 0, ['Q' as int] + keys) == KeyMenu(n, 0, keys)
  {
    assert (['Q' as int] + keys)[1..] == keys;
  }

  // ----------------------------------------------------- the numbered text menus

  /** One typed line: "q" after strip and lower, a number (int() of the line, minus one),
      or anything else. */
  datatype Choice = Quit | Pick(index: int) | Invalid

  /** The decision on the stripped, lower-cased line, given what int() makes of it. */
  function ChoiceOf(choice: string, number: Option<int>): (c: Choice)
    ensures c.Quit? <==> choice == "q"
    ensures c.Pick? ==> number == Some(c.index + 1)
    ensures c.Invalid? <==> choice != "q" && number.None?
  {
    if choice == "q" then Quit
    else match number
      case Some(v) => Pick(v - 1)
      case None => Invalid
  }

  /** One typed line: "q" or "Q" quits, and a number the line reads as picks int(line) - 1. */
  function ParseChoice(line: string): (c: Choice)
    ensures c.Quit? <==> Strip(line) == "q" || Strip(line) == "Q"
    ensures c.Pick? ==> PyInt(line) == Some(c.index + 1)
  {
    var choice := Lower(Strip(line));
    LowerIsQ(Strip(line));
    if PyInt(choice).Some? then
      LowerSignedNumeral(Strip(line));
      StripIdempotent(line);
      ChoiceOf(choice, PyInt(choice))
    else ChoiceOf(choice, PyInt(choice))
  }

  lemma ParseChoiceUnfold(line: string)
    ensures ParseChoice(line) == ChoiceOf(Lower(Strip(line)), PyInt(Lower(Strip(line))))
  {
  }

  /** Lower-casing gives "q" exactly for "q" and "Q". */
  lemma LowerIsQ(t: string)
    ensures Lower(t) == "q" <==> t == "q" || t == "Q"
  {
    if Lower(t) == "q" {
      assert |t| == 1 && Lower(t)[0] == 'q';
      assert t == [t[0]];
    }
    if t == "Q" {
      assert Lower(t)[0] == 'q';
    }
  }

  predicate IsLowerLetter(c: char) { 'a' <= c <= 'z' }

  predicate NoLowerLetter(s: string) { forall k :: 0 <= k < |s| ==> !IsLowerLetter(s[k]) }

  /** A signed numeral holds no letter. */
  lemma SignedNumeralChars(u: string)
    requires IsSignedNumeral(u)
    ensures NoLowerLetter(u)
  {
    forall i | 0 <= i < |u| ensures !IsLowerLetter(u[i]) {
      if u[0] == '-' || u[0] == '+' {
        if i > 0 {
          assert NumeralCharAt(u[1..], i - 1);
        }
      } else {
        assert NumeralCharAt(u, i);
      }
    }
  }

  /** Around a signed numeral, stripping removed only whitespace: no letter anywhere. */
  lemma StripNoLetters(u: string)
    requires IsSignedNumeral(Strip(u))
    ensures NoLowerLetter(u)
  {
    SignedNumeralChars(Strip(u));
    TrimNoLetters(u);
  }

  lemma TrimNoLetters(u: string)
    requires NoLowerLetter(Strip(u))
    ensures NoLowerLetter(u)
  {
    var i, j := StripCuts(u);
    forall k | 0 <= k < |u| ensures !IsLowerLetter(u[k]) {
      if k < i {
        assert u[..i][k] == u[k] && IsSpace(u[..i][k]);
      } else if k < j {
        assert Strip(u)[k - i] == u[k];
      } else {
        assert u[j..][k - j] == u[k] && IsSpace(u[j..][k - j]);
      }
    }
  }

  /** Text that lower-cases to a number the menu accepts was already lower-case. */
  lemma LowerSignedNumeral(t: string)
    requires IsSignedNumeral(Strip(Lower(t)))
    ensures Lower(t) == t
  {
    var u := Lower(t);
    StripNoLetters(u);
    forall i | 0 <= i < |t| ensures u[i] == t[i] {
      assert !IsLowerLetter(u[i]);
    }
  }

  lemma LowerDigits(d: string)
    requires AllDigits(d)
    ensures Lower(d) == d
  {
  }

  /** A line of digits with value v picks index v - 1. */
  lemma ParseDigits(d: string, v: nat)
    requires |d| >= 1 && AllDigits(d) && PyInt(d) == Some(v as int)
    ensures ParseChoice(d) == Pick(v - 1)
  {
    StripDigits(d);
    LowerDigits(d);
    assert d != "q" by { assert IsDigit(d[0]); }
    calc {
      ParseChoice(d);
      { ParseChoiceUnfold(d); }
      ChoiceOf(Lower(Strip(d)), PyInt(Lower(Strip(d))));
      { assert Lower(Strip(d)) == d; }
      ChoiceOf(d, Some(v as int));
      { ChoiceOfNumber(d, v); }
      Pick(v - 1);
    }
  }

  /** A number other than "q" picks the entry before it. */
  lemma ChoiceOfNumber(choice: string, v: int)
    requires choice != "q"
    ensures ChoiceOf(choice, Some(v)) == Pick(v - 1)
  {
  }

  /** Typing the number m picks index m - 1. */
  lemma ParseTypedNumber(m: nat)
    ensures ParseChoice(NatToString(m)) == Pick(m - 1)
  {
    PyIntRoundTrip(m);
    ParseDigits(NatToString(m), m);
  }

  /** Whether a parsed line ends the numbered menu. */
  predicate Accepted(n: nat, c: Choice) {
    c.Quit? || (c.Pick? && 0 <= c.index < n)
  }

  /** The re-prompting loop over the parsed lines: "q" cancels, an in-range number
      chooses, and anything else asks again. */
  function NumberedMenu(n: nat, cs: seq<Choice>): (r: MenuOutcome)
    ensures r.Chosen? ==> 0 <= r.index < n
    ensures cs == [] ==> r == Waiting
    decreases |cs|
  {
    if cs == [] then Waiting
    else match cs[0]
      case Quit => Cancelled
      case Pick(i) => if 0 <= i < n then Chosen(i) else NumberedMenu(n, cs[1..])
      case Invalid => NumberedMenu(n, cs[1..])
  }

  /** The typed lines as the menu reads them. */
  function ParseLines(inputs: seq<string>): (cs: seq<Choice>)
    ensures |cs| == |inputs|
    ensures forall k :: 0 <= k < |inputs| ==> cs[k] == ParseChoice(inputs[k])
  {
    if inputs == [] then [] else [ParseChoice(inputs[0])] + ParseLines(inputs[1..])
  }

  /** run_curses_menu of grepo2_3.7.py, which prints numbered options and reads lines. */
  method RunNumberedMenu(n: nat, inputs: seq<string>) returns (r: MenuOutcome)
    ensures r == NumberedMenu(n, ParseLines(inputs))
  {
    ghost var cs := ParseLines(inputs);
    var i := 0;
    while i < |inputs|
      invariant 0 <= i <= |inputs|
      invariant NumberedMenu(n, cs[i..]) == NumberedMenu(n, cs)
    {
      var choice := Lower(Strip(inputs[i]));
      var v := PyInt(choice);
      ParseChoiceUnfold(inputs[i]);
      assert cs[i] == ChoiceOf(choice, v);
      NumberedStep(n, cs, i, choice, v);
      if choice == "q" {
        return Cancelled;
      }
      if v.Some? {
        var idx := v.value - 1;
        if 0 <= idx < n {
          return Chosen(idx);
        }
      }
      assert NumberedMenu(n, cs[i + 1..]) == NumberedMenu(n, cs);
      i := i + 1;
    }
    assert cs[i..] == [];
    return Waiting;
  }

  /** One line of the numbered menu, in the terms the loop tests. */
  lemma NumberedStep(n: nat, cs: seq<Choice>, i: nat, choice: string, v: Option<int>)
    requires i < |cs| && cs[i] == ChoiceOf(choice, v)
    ensures choice == "q" ==> NumberedMenu(n, cs[i..]) == Cancelled
    ensures choice != "q" && v.Some? && 0 <= v.value - 1 < n ==>
              NumberedMenu(n, cs[i..]) == Chosen(v.value - 1)
    ensures choice != "q" && !(v.Some? && 0 <= v.value - 1 < n) ==>
              NumberedMenu(n, cs[i..]) == NumberedMenu(n, cs[i + 1..])
  {
    assert cs[i..][1..] == cs[i + 1..];
  }

  /** The first accepted line decides: it cancels when it is "q" and otherwise chooses its
      number minus one, always a valid index; lines before it are out of range or not
      numbers. */
  lemma {:induction false} NumberedMenuDecided(n: nat, cs: seq<Choice>)
    ensures var r := NumberedMenu(n, cs);
            (r.Waiting? <==> forall j :: 0 <= j < |cs| ==> !Accepted(n, cs[j])) &&
            (!r.Waiting? ==> exists j :: 0 <= j < |cs| && Accepted(n, cs[j]) &&
                               (forall i :: 0 <= i < j ==> !Accepted(n, cs[i])) &&
                               (r.Cancelled? <==> cs[j].Quit?) &&
                               (r.Chosen? ==> cs[j] == Pick(r.index) && 0 <= r.index < n))
    decreases |cs|
  {
    if cs != [] {
      NumberedMenuDecided(n, cs[1..]);
      var r := NumberedMenu(n, cs);
      if !Accepted(n, cs[0]) {
        assert r == NumberedMenu(n, cs[1..]);
        if !r.Waiting? {
          var j :| 0 <= j < |cs[1..]| && Accepted(n, cs[1..][j]) &&
                   (forall i :: 0 <= i < j ==> !Accepted(n, cs[1..][i])) &&
                   (r.Cancelled? <==> cs[1..][j].Quit?) &&
                   (r.Chosen? ==> cs[1..][j] == Pick(r.index) && 0 <= r.index < n);
          forall i | 0 <= i < j + 1 ensures !Accepted(n, cs[i]) {
            if i > 0 {
              assert cs[i] == cs[1..][i - 1];
            }
          }
          assert cs[j + 1] == cs[1..][j];
        } else {
          forall j | 0 <= j < |cs| ensures !Accepted(n, cs[j]) {
            if j > 0 {
              assert cs[j] == cs[1..][j - 1];
            }
          }
        }
      }
    }
  }

  /** modern_menu of grepo2_3.7.3.4.5-tuitest.py: one line, "q" and non-numbers give None,
      and a number gives its value minus one without any range check. */
  function ModernMenu(line: string): (r: Option<int>)
    ensures Strip(line) == "q" || Strip(line) == "Q" ==> r == None
    ensures r.Some? ==> PyInt(line).Some? && r.value == PyInt(line).value - 1
  {
    match ParseChoice(line)
    case Pick(i) => Some(i)
    case _ => None
  }

  /** Any typed number m is returned as m - 1, however many options there are; m = 0
      (typing "0") gives -1. */
  lemma ModernMenuUnchecked(m: nat)
    ensures ModernMenu(NatToString(m)) == Some(m - 1)
  {
    ParseTypedNumber(m);
  }

  // ------------------------------------------------------- configuration status

  datatype Status = Ready | Partial | Incomplete

  /** The status summary of modern_show_config_details: both tokens set, one of them, or
      none. */
  function ConfigStatus(githubOk: bool, openrouterOk: bool): (s: Status)
    ensures s == Ready <==> githubOk && openrouterOk
    ensures s == Partial <==> githubOk != openrouterOk
    ensures s == Incomplete <==> !githubOk && !openrouterOk
  {
    if githubOk && openrouterOk then Ready
    else if githubOk || openrouterOk then Partial
    else Incomplete
  }

  // ------------------------------------------------------------- display helpers

  /** The truncation of menu entries: a text over limit characters keeps its first
      limit - 3 and gets "..." (descriptions at 50, issue titles at 60). */
  function Shorten(s: string, limit: nat): (r: string)
    requires limit >= 3
    ensures |s| <= limit ==> r == s
    ensures |s| > limit ==> |r| == limit && r[..limit - 3] == s[..limit - 3] && r[limit - 3..] == "..."
    ensures |r| <= limit
  {
    if |s| > limit then s[..limit - 3] + "..." else s
  }
}
