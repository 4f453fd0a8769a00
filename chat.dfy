/** The rule-based chat of `app.py`: the keyword routing of the `/chat` route
    and `processar_delecao_simples`, which strips the deletion keywords from a
    message and deletes every entry, expense and debt whose description
    contains what is left. The three DELETE statements are a parameter that
    answers with a row count or an error. */
module Chat {
  import opened Wrappers
  import Text

  const DeletionWords: seq<string> := ["delete", "deletar", "remover", "apagar", "excluir"]
  const AnalysisWords: seq<string> :=
    ["como andam", "analisar", "dicas", "sugest\U{F5}es", "estou bem", "relat\U{F3}rio", "resumo"]
  const ExpenseWords: seq<string> := ["gastei", "gasto", "comprei", "paguei"]
  const IncomeWords: seq<string> := ["entrada", "sal\U{E1}rio", "receita", "ganhei"]

  /** `any(palavra in msg for palavra in words)`. */
  predicate Mentions(msg: string, words: seq<string>) {
    exists i :: 0 <= i < |words| && Text.Contains(msg, words[i])
  }

  /** `data.get('msg', '').strip().lower()`; an absent field reads as empty. */
  function Normalize(raw: Option<string>): string {
    Text.Lower(Text.Strip(if raw.Some? then raw.value else ""))
  }

  /** The normalized message has no outer whitespace and normalizing it again
      changes nothing, so the deletion's own `lower()` is a no-op on it. */
  lemma NormalizeIdempotent(raw: Option<string>)
    ensures Text.Trimmed(Normalize(raw))
    ensures Text.Lower(Normalize(raw)) == Normalize(raw)
    ensures Normalize(Some(Normalize(raw))) == Normalize(raw)
  {
    var y := Text.Strip(if raw.Some? then raw.value else "");
    Text.LowerKeepsTrimmed(y);
    Text.StripTrimmed(Normalize(raw));
  }

  /** The branch `/chat` takes. `Delete` carries the normalized message it hands
      to `processar_delecao_simples`. */
  datatype Route =
    | EmptyMessage      // 400 'Mensagem vazia'
    | Delete(msg: string)
    | Analyse           // gerar_analise_simples()
    | ExpenseHint       // points to the expenses form
    | IncomeHint        // points to the entries form
    | Unrecognized      // suggests the two commands it knows

  /** The routing of `/chat` on the normalized message: an empty message is
      refused; any other takes the route of the first keyword group it
      mentions, in the order deletion, analysis, expense, income, and is
      unrecognized if it mentions none. */
  function RouteOf(msg: string): Route {
    if msg == "" then EmptyMessage
    else if Mentions(msg, DeletionWords) then Delete(msg)
    else if Mentions(msg, AnalysisWords) then Analyse
    else if Mentions(msg, ExpenseWords) then ExpenseHint
    else if Mentions(msg, IncomeWords) then IncomeHint
    else Unrecognized
  }

  /** `/chat`: normalizes the `msg` field, then routes it. */
  function Dispatch(raw: Option<string>): Route {
    RouteOf(Normalize(raw))
  }

  /** Only the empty message is refused. */
  lemma RouteRefusesEmpty(msg: string)
    ensures RouteOf(msg) == EmptyMessage <==> msg == ""
  {
  }

  /** Normalizing leaves nothing exactly when stripping does. */
  lemma NormalizeBlank(raw: Option<string>)
    ensures Normalize(raw) == "" <==> Text.Strip(if raw.Some? then raw.value else "") == ""
  {
    assert |Normalize(raw)| == |Text.Strip(if raw.Some? then raw.value else "")|;
  }

  /** A message is refused exactly when it is blank once stripped. */
  lemma DispatchRefusesBlank(raw: Option<string>)
    ensures Dispatch(raw) == EmptyMessage <==> Text.Strip(if raw.Some? then raw.value else "") == ""
  {
    RouteRefusesEmpty(Normalize(raw));
    NormalizeBlank(raw);
  }

  /** Each route is taken exactly when the message mentions its group and
      none before it. */
  lemma RoutePriority(msg: string)
    ensures RouteOf(msg) == Delete(msg) <==> msg != "" && Mentions(msg, DeletionWords)
    ensures RouteOf(msg) == Analyse <==>
      msg != "" && !Mentions(msg, DeletionWords) && Mentions(msg, AnalysisWords)
    ensures RouteOf(msg) == ExpenseHint <==>
      msg != "" && !Mentions(msg, DeletionWords) && !Mentions(msg, AnalysisWords)
      && Mentions(msg, ExpenseWords)
    ensures RouteOf(msg) == IncomeHint <==>
      msg != "" && !Mentions(msg, DeletionWords) && !Mentions(msg, AnalysisWords)
      && !Mentions(msg, ExpenseWords) && Mentions(msg, IncomeWords)
  {
  }

  /** A non-empty message that mentions no group is unrecognized, and only
      such a message. */
  lemma RouteUnrecognized(msg: string)
    ensures RouteOf(msg) == Unrecognized <==>
      && msg != ""
      && !Mentions(msg, DeletionWords) && !Mentions(msg, AnalysisWords)
      && !Mentions(msg, ExpenseWords) && !Mentions(msg, IncomeWords)
  {
  }

  /** Removes every word of `words` in turn, stripping whitespace after each:
      the loop of `processar_delecao_simples`. */
  function RemoveWords(s: string, words: seq<string>): string
    requires forall i :: 0 <= i < |words| ==> |words[i]| > 0
    decreases |words|
  {
    if |words| == 0 then s
    else RemoveWords(Text.Strip(Text.ReplaceAll(s, words[0], "")), words[1..])
  }

  lemma DeletionWordsNonEmpty()
    ensures forall i :: 0 <= i < |DeletionWords| ==> |DeletionWords[i]| > 0
  {
  }

  /** One step of the loop: removing word `i`, then the words after it. */
  lemma RemoveWordsStep(s: string, words: seq<string>, i: int)
    requires forall j :: 0 <= j < |words| ==> |words[j]| > 0
    requires 0 <= i < |words|
    ensures RemoveWords(s, words[i..]) == RemoveWords(Text.Strip(Text.ReplaceAll(s, words[i], "")), words[i + 1..])
  {
    assert words[i..][0] == words[i];
    assert words[i..][1..] == words[i + 1..];
  }

  /** The description `processar_delecao_simples` searches for. */
  function DeletionTarget(msg: string): string {
    RemoveWords(Text.Lower(msg), DeletionWords)
  }

  /** After at least one word the result has no outer whitespace and is no
      longer than the input. */
  lemma {:induction false} RemoveWordsTrimmed(s: string, words: seq<string>)
    requires |words| > 0 && forall i :: 0 <= i < |words| ==> |words[i]| > 0
    ensures Text.Trimmed(RemoveWords(s, words))
    ensures |RemoveWords(s, words)| <= |s|
    decreases |words|
  {
    var next := Text.Strip(Text.ReplaceAll(s, words[0], ""));
    Text.DeleteShortens(s, words[0]);
    if |words| > 1 {
      RemoveWordsTrimmed(next, words[1..]);
    }
  }

  /** A trimmed text that mentions none of the words comes back unchanged. */
  lemma {:induction false} RemoveWordsAbsent(s: string, words: seq<string>)
    requires forall i :: 0 <= i < |words| ==> |words[i]| > 0
    requires Text.Trimmed(s) && !Mentions(s, words)
    ensures RemoveWords(s, words) == s
    decreases |words|
  {
    if |words| > 0 {
      assert !Text.Contains(s, words[0]);
      Text.ReplaceAbsent(s, words[0], "");
      Text.StripTrimmed(s);
      assert !Mentions(s, words[1..]) by {
        forall i | 0 <= i < |words| - 1 ensures !Text.Contains(s, words[1..][i]) {
          assert words[1..][i] == words[i + 1];
        }
      }
      RemoveWordsAbsent(s, words[1..]);
    }
  }

  /** The description has no outer whitespace and is no longer than the
      message. */
  lemma DeletionTargetShape(msg: string)
    ensures Text.Trimmed(DeletionTarget(msg))
    ensures |DeletionTarget(msg)| <= |msg|
  {
    DeletionWordsNonEmpty();
    RemoveWordsTrimmed(Text.Lower(msg), DeletionWords);
  }

  /** A trimmed lower-case message without deletion words is searched for as
      it is. */
  lemma DeletionTargetKeeps(msg: string)
    requires Text.Trimmed(Text.Lower(msg)) && !Mentions(Text.Lower(msg), DeletionWords)
    ensures DeletionTarget(msg) == Text.Lower(msg)
  {
    DeletionWordsNonEmpty();
    RemoveWordsAbsent(Text.Lower(msg), DeletionWords);
  }

  datatype Table = Entradas | Gastos | Dividas

  /** `DELETE FROM <table> WHERE descricao LIKE ?` with its one parameter. */
  datatype DeleteRequest = DeleteRequest(table: Table, pattern: string)

  /** `f'%{desc}%'`, the pattern of `descricao LIKE ?`. How the database
      matches it (case, `%` and `_` inside `desc`, NULL descriptions) is the
      database's part and is not modelled. */
  function LikePattern(desc: string): string {
    "%" + desc + "%"
  }

  /** `excluir_entrada_completa` and its two siblings: True exactly when the
      DELETE removed at least one row; False on none and on an error. */
  function ExcluirCompleta(deleted: Outcome<int>): (ok: bool)
    ensures ok <==> deleted.Returned? && deleted.value > 0
  {
    match deleted {
      case Returned(n) => n > 0
      case Raised(_) => false
    }
  }

  /** The reply of `processar_delecao_simples`: removed, or nothing found, for
      the description it searched. */
  datatype DeletionReply = Removed(descricao: string) | NotFound(descricao: string)

  /** `processar_delecao_simples`: lower-cases the message, removes each
      deletion word in turn, then deletes matching entries, expenses and debts.
      It reports success exactly when one of the three deletions removed rows. */
  method ProcessarDelecao(msg: string, db: DeleteRequest -> Outcome<int>)
    returns (reply: DeletionReply, requests: seq<DeleteRequest>)
    ensures reply.descricao == DeletionTarget(msg)
    ensures requests == [DeleteRequest(Entradas, LikePattern(reply.descricao)),
                         DeleteRequest(Gastos, LikePattern(reply.descricao)),
                         DeleteRequest(Dividas, LikePattern(reply.descricao))]
    ensures reply.Removed? <==>
      ExcluirCompleta(db(requests[0])) || ExcluirCompleta(db(requests[1])) || ExcluirCompleta(db(requests[2]))
  {
    var words := DeletionWords;
    DeletionWordsNonEmpty();
    var descricao := Text.Lower(msg);
    assert words[0..] == words;
    var i := 0;
    while i < |words|
      invariant 0 <= i <= |words|
      invariant RemoveWords(descricao, words[i..]) == DeletionTarget(msg)
    {
      RemoveWordsStep(descricao, words, i);
      descricao := Text.Strip(Text.ReplaceAll(descricao, words[i], ""));
      i := i + 1;
    }
    assert words[i..] == [];
    var pattern := LikePattern(descricao);
    requests := [DeleteRequest(Entradas, pattern), DeleteRequest(Gastos, pattern), DeleteRequest(Dividas, pattern)];
    var entrada := ExcluirCompleta(db(requests[0]));
    var gasto := ExcluirCompleta(db(requests[1]));
    var divida := ExcluirCompleta(db(requests[2]));
    if entrada || gasto || divida {
      reply := Removed(descricao);
    } else {
      reply := NotFound(descricao);
    }
  }

  /** `str.replace` makes a single pass, so a keyword can survive its own
      removal: in "exexcluircluir" removing the inner "excluir" joins the
      outer halves into a new "excluir", which is then searched for. */
  lemma RejoinTail()
    ensures Text.ReplaceAll("excluircluir", "excluir", "") == "cluir"
  {
    var tail := "cluir";
    Text.AbsentByFirstChar(tail, "excluir");
    Text.ReplaceAbsent(tail, "excluir", "");
    assert "excluircluir"[7..] == tail;
  }

  lemma RejoinMiddle()
    ensures Text.ReplaceAll("xexcluircluir", "excluir", "") == "xcluir"
  {
    var m := "xexcluircluir";
    RejoinTail();
    assert m[..7][0] != "excluir"[0];
    assert m[1..] == "excluircluir";
  }

  /** A single left-to-right pass over "exexcluircluir" removes the inner
      "excluir" and joins the halves around it into a new one. */
  lemma SinglePassRejoins()
    ensures Text.ReplaceAll("exexcluircluir", "excluir", "") == "excluir"
  {
    var m := "exexcluircluir";
    RejoinMiddle();
    assert m[..7][2] != "excluir"[2];
    assert m[1..] == "xexcluircluir";
  }

  /** None of the first four deletion words occurs in "exexcluircluir". */
  lemma EarlyWordAbsent(i: int)
    requires 0 <= i < 4
    ensures Text.ReplaceAll("exexcluircluir", DeletionWords[i], "") == "exexcluircluir"
  {
    var m := "exexcluircluir";
    var w := DeletionWords[i];
    assert |w| > 0;
    Text.AbsentByFirstChar(m, w);
    Text.ReplaceAbsent(m, w, "");
  }

  /** The loop's first four words leave "exexcluircluir" as it is. */
  lemma FirstFourAbsent(w: seq<string>)
    requires w == DeletionWords
    ensures forall i :: 0 <= i < |w| ==> |w[i]| > 0
    ensures RemoveWords("exexcluircluir", w) == RemoveWords("exexcluircluir", w[4..])
  {
    var m := "exexcluircluir";
    DeletionWordsNonEmpty();
    assert Text.Trimmed(m);
    Text.StripTrimmed(m);
    assert w[0..] == w;
    EarlyWordAbsent(0);
    RemoveWordsStep(m, w, 0);
    EarlyWordAbsent(1);
    RemoveWordsStep(m, w, 1);
    EarlyWordAbsent(2);
    RemoveWordsStep(m, w, 2);
    EarlyWordAbsent(3);
    RemoveWordsStep(m, w, 3);
  }

  lemma ExampleIsLower()
    ensures Text.Lower("exexcluircluir") == "exexcluircluir"
  {
  }

  lemma KeywordIsTrimmed()
    ensures Text.Strip("excluir") == "excluir"
  {
    var k := "excluir";
    assert k[0] == 'e' && k[|k| - 1] == 'r';
    Text.StripTrimmed(k);
  }

  /** Removing each deletion word once does not remove every occurrence of
      it: the description searched for can still be a deletion word. */
  lemma KeywordCanSurvive()
    ensures DeletionTarget("exexcluircluir") == "excluir"
  {
    var m := "exexcluircluir";
    var w := DeletionWords;
    ExampleIsLower();
    FirstFourAbsent(w);
    RemoveWordsStep(m, w, 4);
    assert w[5..] == [];
    SinglePassRejoins();
    KeywordIsTrimmed();
  }

  lemma DeleteIsLower()
    ensures Text.Lower("delete") == "delete"
  {
  }

  /** Removing a word from itself leaves nothing. */
  lemma ReplaceWhole(p: string)
    requires |p| > 0
    ensures Text.ReplaceAll(p, p, "") == ""
  {
    assert Text.StartsWith(p, p);
    assert p[|p|..] == "";
  }

  /** Nothing to remove words from stays nothing. */
  lemma {:induction false} EmptyStaysEmpty(words: seq<string>)
    requires forall i :: 0 <= i < |words| ==> |words[i]| > 0
    ensures RemoveWords("", words) == ""
  {
    if |words| > 0 {
      RemoveWordsTrimmed("", words);
      var r := RemoveWords("", words);
      assert |r| == 0;
    }
  }

  /** A text that is just the first word is removed entirely. */
  lemma OnlyFirstWord(words: seq<string>)
    requires |words| > 0 && forall i :: 0 <= i < |words| ==> |words[i]| > 0
    ensures RemoveWords(words[0], words) == ""
  {
    ReplaceWhole(words[0]);
    Text.StripTrimmed("");
    EmptyStaysEmpty(words[1..]);
  }

  /** A message that is only a deletion word searches for the empty
      description, whose LIKE pattern `%%` matches every row. */
  lemma BareKeywordTargetsAll()
    ensures DeletionTarget("delete") == ""
  {
    DeletionWordsNonEmpty();
    DeleteIsLower();
    OnlyFirstWord(DeletionWords);
  }
}
