/** The scanner object. */
module ConfigLexer {
  // The rules of `ConfigScanner` applied one by one, on the scan context with its string buffer and its
  // stack of suspended files.

  import opened CLibrary
  import opened ConfigScanner
  import opened Options
  import opened ScanContext
  import opened Seqs

  datatype Next = EndOfInput | Token(token: Token)

  /** What a rule does with the collected text: it takes it, keeps it or appends to it. */
  lemma RuleText(s: string, st: LexState)
    requires s != []
    ensures
      var m := NextMatch(s, st);
      match m.effect
      case Skip => st.text <= m.text
      case Emit(t) => if t.TString? then t.s == st.text && m.text == "" else m.text == st.text
      case Open(file) => file == st.text && m.text == ""
  {
    hide Span, FloatLength, IntegerLength, HexLength, SuffixLength, IncludeLength, IndexOf, CString;
  }

  class Scanner {
    const files: Files
    const context: Context
    var rest: string
    var condition: Condition
    var bol: bool

    predicate Valid()
      reads this, context, context.collected, context.collected.text
    {
      context.Valid()
    }

    function State(): LexState
      requires Valid()
      reads this, context, context.collected, context.collected.text
    {
      LexState(condition, bol, context.collected.Contents())
    }

    ghost function Pending(): Scan
      requires Valid()
      reads this, context, context.collected, context.collected.text
    {
      ScanStack(files, rest, State(), context.buffers)
    }

    ghost function Remaining(): nat
      requires Valid()
      reads this, context, context.collected, context.collected.text
    {
      WorkStack(files, rest, State(), context.buffers)
    }

    constructor (files: Files, top: string)
      ensures Valid() && this.files == files
      ensures fresh(context) && fresh(context.collected) && fresh(context.collected.text)
      ensures Pending() == ScanText(files, top, Start, 0)
    {
      this.files := files;
      context := new Context(None);
      rest, condition, bol := top, Initial, true;
    }

    /** The matched text is used up. */
    method Advance(m: Match)
      requires Valid() && rest != [] && m.len <= |rest| && 1 <= m.len
      modifies this
      ensures Valid() && rest == old(rest)[m.len..]
      ensures condition == m.condition && bol == (old(rest)[m.len - 1] == Newline)
    {
      bol := rest[m.len - 1] == Newline;
      rest, condition := rest[m.len..], m.condition;
    }

    /** The action of a rule that appends to the collected text. */
    method Collect(m: Match)
      requires Valid() && rest != [] && m == NextMatch(rest, State()) && m.effect == Skip
      modifies this, context.collected, context.collected.text
      ensures Valid() && (context.collected.text == old(context.collected.text) || fresh(context.collected.text))
      ensures rest == old(rest)[m.len..] && State() == After(old(rest), m)
    {
      hide NextMatch;
      RuleText(rest, State());
      ghost var text := context.collected.Contents();
      context.collected.Append(m.text[context.collected.length..]);
      assert m.text == text + m.text[|text|..];
      Advance(m);
    }

    /** The action of a rule that returns a token. */
    method Return(m: Match) returns (token: Token)
      requires Valid() && rest != [] && m == NextMatch(rest, State()) && m.effect.Emit?
      modifies this, context.collected
      ensures Valid() && (context.collected.text == old(context.collected.text) || fresh(context.collected.text))
      ensures rest == old(rest)[m.len..] && State() == After(old(rest), m) && token == m.effect.token
    {
      hide NextMatch;
      RuleText(rest, State());
      token := m.effect.token;
      if token.TString? {
        var text := context.TakeString();
        token := TString(text);
      }
      Advance(m);
    }

    /** The action of the rule that ends a directive. */
    method Include(m: Match) returns (ok: bool)
      requires Valid() && rest != [] && m == NextMatch(rest, State()) && m.effect.Open?
      modifies this, context, context.collected
      ensures Valid() && (context.collected.text == old(context.collected.text) || fresh(context.collected.text))
      ensures ok <==> |old(context.buffers)| < MAX_INCLUDE_DEPTH && m.effect.file in files
      ensures ok ==>
        && rest == files[m.effect.file] && State() == After(old(rest), m).(bol := true)
        && context.buffers == old(context.buffers) + [old(rest)[m.len..]]
    {
      hide NextMatch;
      RuleText(rest, State());
      var content, error := context.PushInclude(files, rest[m.len..]);
      if error.Some? {
        return false;
      }
      rest, condition, bol := content.value, m.condition, true;
      return true;
    }

    /** `libconfig_yylex`: one token, or the end of the outermost file. */
    method Lex() returns (next: Next)
      requires Valid()
      modifies this, context, context.collected, context.collected.text
      ensures Valid() && (context.collected.text == old(context.collected.text) || fresh(context.collected.text))
      ensures next == EndOfInput ==> old(Pending()).ok && old(Pending()).tokens == []
      ensures next.Token? ==>
        old(Pending()).tokens == (if next.token == TError then [TError] else [next.token] + Pending().tokens)
      ensures next.Token? ==> (next.token == TError ==> !old(Pending()).ok)
      ensures next.Token? && next.token != TError ==>
        Pending().ok == old(Pending()).ok && Remaining() < old(Remaining())
    {
      hide NextMatch, ScanText, ScanStack, WorkStack;
      ghost var start, work := Pending(), Remaining();
      while true
        invariant Valid() && (context.collected.text == old(context.collected.text) || fresh(context.collected.text))
        invariant Pending() == start && Remaining() <= work
        decreases Remaining()
      {
        if rest == [] {
          EndOfFile(files, State(), context.buffers);
          var buffer := context.PopInclude();
          if buffer.None? {
            return EndOfInput;
          }
          rest, bol := buffer.value, false;
        } else {
          var m := NextMatch(rest, State());
          match m.effect {
            case Skip =>
              RuleStep(files, rest, State(), context.buffers);
              Collect(m);
            case Emit(_) =>
              RuleStep(files, rest, State(), context.buffers);
              EmitIsNotError(rest, State());
              var token := Return(m);
              return Token(token);
            case Open(_) =>
              ghost var s, st, stack := rest, State(), context.buffers;
              var ok := Include(m);
              if !ok {
                FailedOpen(files, s, st, stack);
                return Token(TError);
              }
              PushSplits(files, s, st, stack);
          }
        }
      }
      assert false;
    }
  }

  /** Scanning to the end, or to the first error, yields the recursive expansion. */
  method ScanAll(files: Files, top: string) returns (tokens: seq<Token>, ok: bool)
    ensures tokens == Tokens(files, top)
    ensures ok == ScanText(files, top, Start, 0).ok
  {
    hide ScanText, ScanStack, WorkStack;
    var scanner := new Scanner(files, top);
    tokens, ok := [], true;
    ghost var start := scanner.Pending();
    while true
      invariant scanner.Valid() && fresh(scanner) && fresh(scanner.context)
      invariant fresh(scanner.context.collected) && fresh(scanner.context.collected.text)
      invariant tokens + scanner.Pending().tokens == start.tokens
      invariant scanner.Pending().ok == start.ok
      decreases scanner.Remaining()
    {
      var next := scanner.Lex();
      if next == EndOfInput {
        PlusNothing(tokens);
        return;
      }
      Assoc(tokens, [next.token], if next.token == TError then [] else scanner.Pending().tokens);
      PlusNothing([next.token]);
      tokens := tokens + [next.token];
      if next.token == TError {
        ok := false;
        return;
      }
    }
    assert false;
  }
}
