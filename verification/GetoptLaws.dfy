/** What a call delivers, said of the arguments and the option string as they are written. */
module GetoptLaws {
  import opened Bytes
  import opened GetoptSpec

  // ----- Where a call reads -----

  predicate Operand(a: string) { a == "" || a == "-" || a[0] != '-' }

  predicate Permutes(cfg: Config) {
    !(cfg.optstring != "" && (cfg.optstring[0] == '-' || cfg.optstring[0] == '+')) && !cfg.posixlyCorrect
  }

  /** Between two elements, the call comes to element `i`: everything before it is an operand that may be moved. */
  predicate ComesTo(cfg: Config, args: seq<string>, p: Progress, i: nat) {
    && Sound(args, p) && p.nextchar == "" && p.optind <= i <= |args|
    && (i > p.optind ==> Permutes(cfg)) && forall k :: p.optind <= k < i ==> Operand(args[k])
  }

  /** The call reads an option from `nc` in element `i`: the whole element behind its dash, or what is left of it. */
  predicate ReadsFrom(cfg: Config, args: seq<string>, p: Progress, i: nat, nc: string) {
    && i < |args| && nc != ""
    && ( || (ComesTo(cfg, args, p, i) && args[i] == "-" + nc && nc != "-" && !(cfg.longopts.Some? && nc[0] == '-'))
         || (ComesTo(cfg, args, p, i) && args[i] == "--" + nc && cfg.longopts.Some?)
         || (Sound(args, p) && p.nextchar == nc && p.optind == i))
  }

  /** The step takes the elements from `i` to `j`, leaves `rest` of the last one unread, and gives `out`. */
  predicate Gives(args: seq<string>, p: Progress, i: nat, j: nat, rest: string, out: Outcome, r: Step)
    requires p.optind <= i <= j <= |args|
  {
    r == Step(out, Progress(j, rest, p.taken + args[i..j], p.operands + args[p.optind..i], out.optopt), false)
  }

  /** Without the mark in front. */
  predicate LettersAre(cfg: Config, letters: string) {
    || cfg.optstring == "-" + letters || cfg.optstring == "+" + letters
    || (cfg.optstring == letters && (letters == "" || (letters[0] != '-' && letters[0] != '+')))
  }

  function MissingCode(letters: string): int { if letters != "" && letters[0] == ':' then ':' as int else '?' as int }

  /** An outcome without a long option. */
  function Told(code: int, optarg: Option<string>, optopt: int): Outcome { Outcome(code, optarg, optopt, None, None) }

  /** What a long option that is found gives. */
  function Delivered(o: LongOption, k: nat, optarg: Option<string>, optopt: int): Outcome {
    if o.flag.Some? then Outcome(0, optarg, optopt, Some(k), Some((o.flag.value, o.val)))
    else Outcome(o.val, optarg, optopt, Some(k), None)
  }

  function WithText(name: string, text: Option<string>): string { name + if text.Some? then "=" + text.value else "" }

  // ----- Positions in texts -----

  lemma OneByte(s: string, c: char, k: nat)
    ensures OccursAt(s, [c], k) <==> k < |s| && s[k] == c
  {
    if k < |s| {
      assert s[k..k + 1] == [s[k]];
    }
  }

  lemma FirstByte(s: string, a: string, c: char, rest: string)
    requires s == a + [c] + rest && c !in a
    ensures Find(s, [c]) == |a|
  {
    OneByte(s, c, Find(s, [c]));
    OneByte(s, c, |a|);
  }

  lemma NoByte(s: string, c: char)
    requires c !in s
    ensures Find(s, [c]) == |s|
  {
    OneByte(s, c, Find(s, [c]));
  }

  lemma NameOf(name: string, text: Option<string>)
    requires '=' !in name
    ensures var nc := WithText(name, text);
            && OptionName(nc) == name && (text.None? ==> Find(nc, "=") == |nc|)
            && (text.Some? ==> Find(nc, "=") == |name| < |nc| && nc[|name| + 1..] == text.value)
  {
    var nc := WithText(name, text);
    if text.Some? {
      FirstByte(nc, name, '=', text.value);
    } else {
      NoByte(nc, '=');
    }
  }

  lemma LettersOf(cfg: Config, letters: string)
    requires LettersAre(cfg, letters)
    ensures cfg.Letters() == letters && cfg.Missing() == MissingCode(letters)
  {
  }

  lemma Declared(cfg: Config, pre: string, c: char, post: string)
    requires LettersAre(cfg, pre + [c] + post) && c !in pre
    ensures cfg.Place(c) == Some(|pre|)
    ensures cfg.LetterAt(|pre| + 1) == (if post == "" then '\0' else post[0])
    ensures cfg.LetterAt(|pre| + 2) == if |post| < 2 then '\0' else post[1]
  {
    var letters := pre + [c] + post;
    LettersOf(cfg, letters);
    FirstByte(letters, pre, c, post);
  }

  lemma Undeclared(cfg: Config, letters: string, c: char)
    requires LettersAre(cfg, letters)
    ensures c !in letters <==> cfg.Place(c).None?
  {
    LettersOf(cfg, letters);
    if c in letters {
      var k :| 0 <= k < |letters| && letters[k] == c;
      OneByte(letters, c, k);
    } else {
      NoByte(letters, c);
    }
  }

  // ----- How a call starts -----

  lemma {:induction false} Skips(args: seq<string>, p: Progress, i: nat)
    requires p.optind <= i <= |args| && forall k :: p.optind <= k < i ==> Operand(args[k])
    requires i == |args| || !Operand(args[i])
    ensures SkipOperands(args, p).optind == i
    decreases i - p.optind
  {
    if p.optind < i {
      Skips(args, p.(optind := p.optind + 1, operands := p.operands + [args[p.optind]]), i);
    }
  }

  lemma Arrives(cfg: Config, args: seq<string>, p: Progress, i: nat)
    requires ComesTo(cfg, args, p, i) && (i == |args| || !Operand(args[i]))
    ensures Current(cfg, args, p) == p.(optind := i, operands := p.operands + args[p.optind..i])
  {
    if Permutes(cfg) {
      Skips(args, p, i);
    } else {
      assert args[i..i] == [] && p.operands + [] == p.operands;
    }
  }

  /** The call is the reading of `nc`. */
  lemma Starts(cfg: Config, args: seq<string>, p: Progress, i: nat, nc: string)
    requires ReadsFrom(cfg, args, p, i, nc)
    ensures Sound(args, p) && !NonOption(args[i]) && Reading(cfg, args, p) == Some(nc)
    ensures p.optind <= i && Current(cfg, args, p) == p.(optind := i, operands := p.operands + args[p.optind..i])
  {
    if p.nextchar == "" {
      Arrives(cfg, args, p, i);
      assert args[i] == "-" + nc ==> args[i][1..] == nc && (args[i][1] == nc[0]);
      assert args[i] == "--" + nc ==> args[i][2..] == nc;
    } else {
      assert args[i..i] == [] && p.operands + [] == p.operands;
    }
  }

  /** The call gives what reading the option gives. */
  lemma StartsStep(cfg: Config, args: seq<string>, p: Progress, i: nat, nc: string, j: nat, rest: string, out: Outcome)
    requires ReadsFrom(cfg, args, p, i, nc) && i <= j <= |args| && |args[i]| >= 2
    requires ScanOption(cfg, args, i, nc, p.optopt) == Scan(out, j, rest)
    ensures p.optind <= i && Sound(args, p) && Gives(args, p, i, j, rest, out, RefCall(cfg, args, p))
  {
    hide ScanOption;
    Starts(cfg, args, p, i, nc);
    ScanBounds(cfg, args, i, nc, p.optopt);
  }

  // ----- Long options -----

  /** What an option that was found, with or without a text behind an equals sign, does with its argument. */
  predicate TakesLong(args: seq<string>, p: Progress, i: nat, letters: string, o: LongOption, k: nat, text: Option<string>, r: Step)
    requires p.optind <= i < |args|
  {
    if text.Some? then
      if o.hasArg != 0 then Gives(args, p, i, i + 1, "", Delivered(o, k, text, p.optopt), r)
      else Gives(args, p, i, i + 1, "", Told('?' as int, None, o.val), r)
    else if o.hasArg == 1 then
      if i + 1 < |args| then Gives(args, p, i, i + 2, "", Delivered(o, k, Some(args[i + 1]), p.optopt), r)
      else Gives(args, p, i, i + 1, "", Told(MissingCode(letters), None, o.val), r)
    else Gives(args, p, i, i + 1, "", Delivered(o, k, None, p.optopt), r)
  }

  /** The element is read as a long option: it has two dashes, or one does where that is enough. */
  predicate ReadAsLong(cfg: Config, letters: string, a: string) {
    && cfg.longopts.Some? && |a| >= 2
    && (a[1] == '-' || (cfg.longOnly && (|a| > 2 || a[1] !in letters)))
  }

  lemma TriesAre(cfg: Config, letters: string, a: string)
    requires LettersAre(cfg, letters) && |a| >= 2
    ensures TriesLong(cfg, a) <==> ReadAsLong(cfg, letters, a)
  {
    hide Config.Place;
    Undeclared(cfg, letters, a[1]);
  }

  lemma LongStep(cfg: Config, args: seq<string>, p: Progress, i: nat, letters: string, name: string, text: Option<string>, k: nat)
    requires ReadsFrom(cfg, args, p, i, WithText(name, text)) && LettersAre(cfg, letters) && '=' !in name
    requires |args[i]| >= 2 && ReadAsLong(cfg, letters, args[i])
    requires k < |cfg.longopts.value| && StandsFor(cfg.longopts.value, name, cfg.longOnly, Found(k))
    ensures p.optind <= i && Sound(args, p)
    ensures TakesLong(args, p, i, letters, cfg.longopts.value[k], k, text, RefCall(cfg, args, p))
  {
    hide Find, OptionName, MatchLong, RefCall, ReadsFrom, StandsFor, Gives, Sound, Config.Place, TriesLong;
    var nc := WithText(name, text);
    var los, o := cfg.longopts.value, cfg.longopts.value[k];
    ReadsWithin(cfg, args, p, i, nc);
    NameOf(name, text);
    LettersOf(cfg, letters);
    TriesAre(cfg, letters, args[i]);
    MatchLongExactly(los, name, cfg.longOnly, Found(k));
    var s := ScanOption(cfg, args, i, nc, p.optopt);
    assert s == TakeLong(cfg, args, i, nc, k, p.optopt);
    StartsStep(cfg, args, p, i, nc, s.optind, s.nextchar, s.out);
  }

  lemma ReadsWithin(cfg: Config, args: seq<string>, p: Progress, i: nat, nc: string)
    requires ReadsFrom(cfg, args, p, i, nc)
    ensures i < |args| && nc != "" && p.optind <= i
  {
  }

  /** A name that stands for nothing, or for several options of different effect. */
  lemma LongFails(cfg: Config, args: seq<string>, p: Progress, i: nat, letters: string, name: string, text: Option<string>, m: Match)
    requires ReadsFrom(cfg, args, p, i, WithText(name, text)) && LettersAre(cfg, letters) && '=' !in name
    requires |args[i]| >= 2 && ReadAsLong(cfg, letters, args[i])
    requires StandsFor(cfg.longopts.value, name, cfg.longOnly, m) && !m.Found?
    requires m.NoMatch? ==> args[i][1] == '-' || WithText(name, text)[0] !in letters
    ensures p.optind <= i && Sound(args, p) && Gives(args, p, i, i + 1, "", Told('?' as int, None, 0), RefCall(cfg, args, p))
  {
    hide Find, OptionName, MatchLong, RefCall, ReadsFrom, StandsFor, Gives, Sound, Config.Place, TriesLong;
    var nc := WithText(name, text);
    ReadsWithin(cfg, args, p, i, nc);
    NameOf(name, text);
    TriesAre(cfg, letters, args[i]);
    MatchLongExactly(cfg.longopts.value, name, cfg.longOnly, m);
    Undeclared(cfg, letters, nc[0]);
    StartsStep(cfg, args, p, i, nc, i + 1, "", Told('?' as int, None, 0));
  }

  // ----- Short options -----

  /** The letter is read as a short option: the element is not tried as a long one, or its text stands for none. */
  ghost predicate ReadAsShort(cfg: Config, letters: string, a: string, nc: string)
    requires nc != ""
  {
    ReadAsLong(cfg, letters, a) ==>
      && cfg.longOnly && a[1] != '-' && nc[0] in letters
      && exists name, text :: nc == WithText(name, text) && '=' !in name && StandsFor(cfg.longopts.value, name, cfg.longOnly, NoMatch)
  }

  lemma ShortRead(cfg: Config, letters: string, a: string, nc: string)
    requires LettersAre(cfg, letters) && |a| >= 2 && nc != "" && ReadAsShort(cfg, letters, a, nc)
    ensures ReadsShort(cfg, a, nc)
  {
    hide Find, OptionName, MatchLong, StandsFor, Config.Place, TriesLong, WithText;
    TriesAre(cfg, letters, a);
    Undeclared(cfg, letters, nc[0]);
    if ReadAsLong(cfg, letters, a) {
      var name, text :| nc == WithText(name, text) && '=' !in name && StandsFor(cfg.longopts.value, name, cfg.longOnly, NoMatch);
      NameOf(name, text);
      MatchLongExactly(cfg.longopts.value, name, cfg.longOnly, NoMatch);
    }
  }

  /** The element after a letter with `rest` behind it. */
  function After(i: nat, rest: string): nat { if rest == "" then i + 1 else i }

  /** A declared letter, with `post` behind it in the option string. */
  predicate TakesShort(args: seq<string>, p: Progress, i: nat, letters: string, c: char, post: string, rest: string, r: Step)
    requires p.optind <= i < |args|
  {
    if !(":" <= post) then Gives(args, p, i, After(i, rest), rest, Told(c as int, None, p.optopt), r)
    else if rest != "" then Gives(args, p, i, i + 1, "", Told(c as int, Some(rest), p.optopt), r)
    else if "::" <= post then Gives(args, p, i, i + 1, "", Told(c as int, None, p.optopt), r)
    else if i + 1 < |args| then Gives(args, p, i, i + 2, "", Told(c as int, Some(args[i + 1]), p.optopt), r)
    else Gives(args, p, i, i + 1, "", Told(MissingCode(letters), None, c as int), r)
  }

  /**
   * A declared letter: with no argument the rest of the element stays for the next call; a required one is the rest of the
   * element, or the next element, or missing; an optional one is the rest of the element.
   */
  lemma ShortStep(cfg: Config, args: seq<string>, p: Progress, i: nat, pre: string, c: char, post: string, rest: string)
    requires ReadsFrom(cfg, args, p, i, [c] + rest) && LettersAre(cfg, pre + [c] + post) && c !in pre
    requires |args[i]| >= 2 && ReadAsShort(cfg, pre + [c] + post, args[i], [c] + rest)
    requires c != ':' && c != ';' && !(c == 'W' && ";" <= post)
    ensures p.optind <= i && Sound(args, p)
    ensures TakesShort(args, p, i, pre + [c] + post, c, post, rest, RefCall(cfg, args, p))
  {
    hide Find, RefCall, ReadsFrom, ReadsShort, ReadAsShort, LettersAre, Gives, Sound, Config.Place, Config.LetterAt, Config.Missing;
    var nc := [c] + rest;
    ReadsWithin(cfg, args, p, i, nc);
    ShortRead(cfg, pre + [c] + post, args[i], nc);
    Declared(cfg, pre, c, post);
    LettersOf(cfg, pre + [c] + post);
    assert nc[0] == c && nc[1..] == rest;
    var s := TakeShort(cfg, args, i, nc, p.optopt);
    assert ScanOption(cfg, args, i, nc, p.optopt) == s;
    assert s.optind <= |args|;
    StartsStep(cfg, args, p, i, nc, s.optind, s.nextchar, s.out);
  }

  /** A letter that is not declared, or is one of the two marks. */
  lemma ShortUnknown(cfg: Config, args: seq<string>, p: Progress, i: nat, letters: string, c: char, rest: string)
    requires ReadsFrom(cfg, args, p, i, [c] + rest) && LettersAre(cfg, letters)
    requires |args[i]| >= 2 && ReadAsShort(cfg, letters, args[i], [c] + rest)
    requires c !in letters || c == ':' || c == ';'
    ensures p.optind <= i && Sound(args, p)
    ensures Gives(args, p, i, After(i, rest), rest, Told('?' as int, None, c as int), RefCall(cfg, args, p))
  {
    hide Find, RefCall, ReadsFrom, ReadsShort, ReadAsShort, LettersAre, Gives, Sound, Config.Place;
    var nc := [c] + rest;
    ReadsWithin(cfg, args, p, i, nc);
    ShortRead(cfg, letters, args[i], nc);
    Undeclared(cfg, letters, c);
    assert nc[0] == c && nc[1..] == rest;
    StartsStep(cfg, args, p, i, nc, After(i, rest), rest, Told('?' as int, None, c as int));
  }

  // ----- A name after `-W` -----

  /** What an option found after a `-W` does; `j` is the element after the text. Errors leave the whole text in `optarg`. */
  predicate TakesNamed(args: seq<string>, p: Progress, i: nat, j: nat, letters: string, o: LongOption, k: nat, name: string,
                       text: Option<string>, r: Step)
    requires p.optind <= i <= j <= |args|
  {
    var whole := WithText(name, text);
    if text.Some? then
      if o.hasArg != 0 then Gives(args, p, i, j, "", Delivered(o, k, text, p.optopt), r)
      else Gives(args, p, i, j, "", Told('?' as int, Some(whole), p.optopt), r)
    else if o.hasArg == 1 then
      if j < |args| then Gives(args, p, i, j + 1, "", Delivered(o, k, Some(args[j]), p.optopt), r)
      else Gives(args, p, i, j, "", Told(MissingCode(letters), Some(whole), p.optopt), r)
    else Gives(args, p, i, j, "", Delivered(o, k, None, p.optopt), r)
  }

  /** The text of the `-W`: what is behind it, or the next element. */
  predicate TextOfW(args: seq<string>, i: nat, j: nat, rest: string, whole: string) {
    if rest != "" then whole == rest && j == i + 1 <= |args| else j == i + 2 <= |args| && whole == args[i + 1]
  }

  /** A `W` that is declared with a semicolon is read. */
  predicate ReadsW(cfg: Config, args: seq<string>, p: Progress, i: nat, pre: string, post: string, rest: string) {
    && ReadsFrom(cfg, args, p, i, "W" + rest) && |args[i]| >= 2
    && LettersAre(cfg, pre + "W" + post) && 'W' !in pre && ";" <= post
  }

  lemma WRead(cfg: Config, args: seq<string>, p: Progress, i: nat, pre: string, post: string, rest: string)
    requires ReadsW(cfg, args, p, i, pre, post, rest) && ReadAsShort(cfg, pre + "W" + post, args[i], "W" + rest)
    ensures i < |args| && |args[i]| >= 2 && p.optind <= i && ReadsFrom(cfg, args, p, i, "W" + rest)
    ensures ScanOption(cfg, args, i, "W" + rest, p.optopt) == TakeW(cfg, args, i, rest, p.optopt)
    ensures cfg.Missing() == MissingCode(pre + "W" + post)
  {
    hide Find, RefCall, ReadsShort, ReadAsShort, LettersAre, Sound, Config.Place, Config.LetterAt, Config.Missing, TakeW;
    var letters := pre + "W" + post;
    ReadsWithin(cfg, args, p, i, "W" + rest);
    ShortRead(cfg, letters, args[i], "W" + rest);
    Declared(cfg, pre, 'W', post);
    LettersOf(cfg, letters);
    assert ("W" + rest)[0] == 'W' && ("W" + rest)[1..] == rest;
  }

  lemma WStep(cfg: Config, args: seq<string>, p: Progress, i: nat, pre: string, post: string, rest: string, j: nat,
              name: string, text: Option<string>, k: nat)
    requires ReadsW(cfg, args, p, i, pre, post, rest) && ReadAsShort(cfg, pre + "W" + post, args[i], "W" + rest)
    requires cfg.longopts.Some? && '=' !in name && TextOfW(args, i, j, rest, WithText(name, text))
    requires k < |cfg.longopts.value| && StandsFor(cfg.longopts.value, name, cfg.longOnly, Found(k))
    ensures p.optind <= i && Sound(args, p)
    ensures TakesNamed(args, p, i, j, pre + "W" + post, cfg.longopts.value[k], k, name, text, RefCall(cfg, args, p))
  {
    hide Find, RefCall, ReadsFrom, ReadAsShort, LettersAre, Gives, Sound, StandsFor, MatchLong, OptionName, Config.Missing, ScanOption;
    WRead(cfg, args, p, i, pre, post, rest);
    NameOf(name, text);
    MatchLongExactly(cfg.longopts.value, name, cfg.longOnly, Found(k));
    var s := TakeNamed(cfg, args, j, WithText(name, text), p.optopt);
    assert TakeW(cfg, args, i, rest, p.optopt) == s;
    StartsStep(cfg, args, p, i, "W" + rest, s.optind, s.nextchar, s.out);
  }

  /** A name that stands for nothing is handed over; an ambiguous one takes an element more, if there is one. */
  lemma WFails(cfg: Config, args: seq<string>, p: Progress, i: nat, pre: string, post: string, rest: string, j: nat,
               name: string, text: Option<string>, m: Match)
    requires ReadsW(cfg, args, p, i, pre, post, rest) && ReadAsShort(cfg, pre + "W" + post, args[i], "W" + rest)
    requires cfg.longopts.Some? && '=' !in name && TextOfW(args, i, j, rest, WithText(name, text))
    requires !m.Found? && StandsFor(cfg.longopts.value, name, cfg.longOnly, m)
    ensures p.optind <= i && Sound(args, p)
    ensures var r, whole := RefCall(cfg, args, p), WithText(name, text);
            if m.NoMatch? then Gives(args, p, i, j, "", Told('W' as int, Some(whole), p.optopt), r)
            else if j < |args| then Gives(args, p, i, j + 1, "", Told('?' as int, Some(whole), p.optopt), r)
            else r.out == Told('?' as int, Some(whole), p.optopt) && r.next.optind == |args| + 1 && !r.ended
  {
    hide Find, ReadsFrom, ReadAsShort, LettersAre, Sound, StandsFor, MatchLong, OptionName, Config.Missing, ScanOption, Current, Reading;
    WRead(cfg, args, p, i, pre, post, rest);
    NameOf(name, text);
    MatchLongExactly(cfg.longopts.value, name, cfg.longOnly, m);
    var s := TakeNamed(cfg, args, j, WithText(name, text), p.optopt);
    assert TakeW(cfg, args, i, rest, p.optopt) == s;
    if s.optind <= |args| {
      StartsStep(cfg, args, p, i, "W" + rest, s.optind, s.nextchar, s.out);
    } else {
      Starts(cfg, args, p, i, "W" + rest);
      ScanBounds(cfg, args, i, "W" + rest, p.optopt);
    }
  }

  /** Without long options the letter is handed over and what is behind it is dropped; without any text it is missing. */
  lemma WAlone(cfg: Config, args: seq<string>, p: Progress, i: nat, pre: string, post: string, rest: string)
    requires ReadsW(cfg, args, p, i, pre, post, rest) && ReadAsShort(cfg, pre + "W" + post, args[i], "W" + rest)
    requires cfg.longopts.None? || (rest == "" && i + 1 == |args|)
    ensures p.optind <= i && Sound(args, p)
    ensures var out := if cfg.longopts.None? then Told('W' as int, None, p.optopt)
                       else Told(MissingCode(pre + "W" + post), None, 'W' as int);
            i < |args| && Gives(args, p, i, After(i, rest), "", out, RefCall(cfg, args, p))
  {
    hide Find, RefCall, ReadsFrom, ReadAsShort, LettersAre, Gives, Sound, MatchLong, OptionName, Config.Missing, ScanOption;
    WRead(cfg, args, p, i, pre, post, rest);
    var s := TakeW(cfg, args, i, rest, p.optopt);
    StartsStep(cfg, args, p, i, "W" + rest, s.optind, s.nextchar, s.out);
  }

  // ----- Operands and the end -----

  /** The options end with the arguments or at `--`, which is taken; what has been skipped and what follows are operands. */
  lemma EndStep(cfg: Config, args: seq<string>, p: Progress, i: nat)
    requires ComesTo(cfg, args, p, i) && (i < |args| ==> args[i] == "--")
    ensures var r := RefCall(cfg, args, p);
            r == Step(Told(-1, None, p.optopt),
                      Progress(|args|, "", p.taken + (if i < |args| then ["--"] else []),
                               p.operands + args[p.optind..i] + (if i < |args| then args[i + 1..] else []), p.optopt),
                      true)
  {
    Arrives(cfg, args, p, i);
    assert p.taken + [] == p.taken;
    assert p.operands + args[p.optind..i] + [] == p.operands + args[p.optind..i];
  }

  /** An operand that may not be moved: it is handed over as the argument of option 1, or it ends the options. */
  lemma OperandStep(cfg: Config, args: seq<string>, p: Progress)
    requires Sound(args, p) && p.nextchar == "" && p.optind < |args| && Operand(args[p.optind]) && !Permutes(cfg)
    ensures var r, i := RefCall(cfg, args, p), p.optind;
            if cfg.optstring != "" && cfg.optstring[0] == '-' then
              r == Step(Told(1, Some(args[i]), p.optopt), p.(optind := i + 1, taken := p.taken + [args[i]]), false)
            else
              r == Step(Told(-1, None, p.optopt), p.(optind := |args|, operands := p.operands + args[i..]), true)
  {
  }
}
