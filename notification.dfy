/** The notification for a newly inserted transaction: the credit/debit
    classification and the whitespace-collapsed message text. Parsing and
    re-rendering the posted date and the amount are done by libraries that
    are outside this model; they are parameters that may fail. */
module Notification {
  import opened Wrappers
  import opened Records
  import opened Whitespace

  datatype Direction = Credit | Debit

  /** Only the exact transaction type "C" is a credit; every other type,
      the empty one included, is a debit. */
  function DirectionOf(tranType: string): (d: Direction)
    ensures d == Credit <==> tranType == "C"
  {
    if tranType == "C" then Credit else Debit
  }

  /** The emoji code that opens the message: a green heart marks a credit,
      a plain heart a debit. */
  function Icon(d: Direction): (icon: string)
    ensures icon != [] && NoSpace(icon)
    ensures icon == ":green_heart:" <==> d == Credit
    ensures icon == ":heart:" <==> d == Debit
  {
    match d
    case Credit => ":green_heart:"
    case Debit => ":heart:"
  }

  /** The word that names the kind of transaction: "Credit" for a credit,
      "Debit" for a debit. */
  function Label(d: Direction): (word: string)
    ensures word != [] && NoSpace(word)
    ensures word == "Debit" <==> d == Debit
    ensures word == "Credit" <==> d == Credit
  {
    match d
    case Credit => "Credit"
    case Debit => "Debit"
  }

  /** The values the message format places between single spaces, in order:
      icon, "New Unionbank", account name, label, transaction id followed by
      a colon, amount, currency, description, remarks, remarks2, "on" and
      the posted date. */
  function Parts(icon: string, name: string, kind: string, tranId: string, amount: string,
                 currency: string, description: string, remarks: string, remarks2: string,
                 date: string): (parts: seq<string>)
    ensures |parts| == 13 && parts[0] == icon
  {
    [icon, "New", "Unionbank", name, kind, tranId + ":", amount, currency, description,
     remarks, remarks2, "on", date]
  }

  /** The formatted line before whitespace is collapsed. The format
      "%s New Unionbank %s %s %s: %s %s %s %s %s on %s" is the thirteen parts
      above with one space between neighbours. */
  function Template(icon: string, name: string, kind: string, tranId: string, amount: string,
                    currency: string, description: string, remarks: string, remarks2: string,
                    date: string): string
  {
    Join(Parts(icon, name, kind, tranId, amount, currency, description, remarks, remarks2, date), " ")
  }

  /** The template is the expansion of the format
      "%s New Unionbank %s %s %s: %s %s %s %s %s on %s". */
  lemma TemplateIsFormat(icon: string, name: string, kind: string, tranId: string, amount: string,
                         currency: string, description: string, remarks: string, remarks2: string,
                         date: string)
    ensures Template(icon, name, kind, tranId, amount, currency, description, remarks, remarks2, date)
         == icon + " New Unionbank " + name + " " + kind + " " + tranId + ": " + amount + " " + currency
            + " " + description + " " + remarks + " " + remarks2 + " on " + date
  {
    var ps := Parts(icon, name, kind, tranId, amount, currency, description, remarks, remarks2, date);
    JoinThirteen(ps);
    var head := icon + " " + "New" + " " + "Unionbank" + " ";
    assert head == icon + " New Unionbank ";
    var mid := head + name + " " + kind + " " + (tranId + ":") + " ";
    assert mid == icon + " New Unionbank " + name + " " + kind + " " + tranId + ": ";
    var tail := mid + amount + " " + currency + " " + description + " " + remarks + " " + remarks2;
    assert tail + " " + "on" + " " + date == tail + " on " + date;
  }

  /** The single-space join of thirteen strings, written out. */
  lemma JoinThirteen(ps: seq<string>)
    requires |ps| == 13
    ensures Join(ps, " ") == ps[0] + " " + ps[1] + " " + ps[2] + " " + ps[3] + " " + ps[4] + " " + ps[5] + " "
                             + ps[6] + " " + ps[7] + " " + ps[8] + " " + ps[9] + " " + ps[10] + " " + ps[11]
                             + " " + ps[12]
  {
    assert ps[..1] == [ps[0]];
    JoinPrefix(ps, 1, " ");
    JoinPrefix(ps, 2, " ");
    JoinPrefix(ps, 3, " ");
    JoinPrefix(ps, 4, " ");
    JoinPrefix(ps, 5, " ");
    JoinPrefix(ps, 6, " ");
    JoinPrefix(ps, 7, " ");
    JoinPrefix(ps, 8, " ");
    JoinPrefix(ps, 9, " ");
    JoinPrefix(ps, 10, " ");
    JoinPrefix(ps, 11, " ");
    JoinPrefix(ps, 12, " ");
    assert ps[..13] == ps;
  }

  /** The message text: the formatted line with every whitespace run
      collapsed to one space and the ends trimmed. */
  function Message(icon: string, name: string, kind: string, tranId: string, amount: string,
                   currency: string, description: string, remarks: string, remarks2: string,
                   date: string): string
  {
    Collapse(Template(icon, name, kind, tranId, amount, currency, description, remarks, remarks2, date))
  }

  /** The two renderings the message needs from libraries outside the model:
      the posted date (layout "2006-01-02T15:04:05.000" re-rendered as
      "1/2 15:04") and the amount (parsed as a 64-bit float, printed with two
      decimals and English digit grouping). `None` is a parse failure. */
  datatype Renderers = Renderers(postedDate: string -> Option<string>, amount: string -> Option<string>)

  /** Why a notification could not be built. */
  datatype Failure = BadPostedDate(postedDate: string) | BadAmount(amount: string)

  /** The notification text for `rec`, stored under `account`. The posted
      date is rendered first, so a record with both fields malformed fails on
      the date. */
  function Notify(account: Account, rec: Record, render: Renderers): (r: Result<string, Failure>)
    ensures r.Failure? <==> render.postedDate(rec.postedDate).None? || render.amount(rec.amount).None?
    ensures render.postedDate(rec.postedDate).None? ==> r == Failure(BadPostedDate(rec.postedDate))
    ensures render.postedDate(rec.postedDate).Some? && render.amount(rec.amount).None? ==>
              r == Failure(BadAmount(rec.amount))
  {
    var d := DirectionOf(rec.tranType);
    match render.postedDate(rec.postedDate)
    case None => Failure(BadPostedDate(rec.postedDate))
    case Some(date) =>
      match render.amount(rec.amount)
      case None => Failure(BadAmount(rec.amount))
      case Some(amount) =>
        Success(Message(Icon(d), account.name, Label(d), rec.tranId, amount, rec.currency,
                        rec.tranDescription, rec.remarks, rec.remarks2, date))
  }

  /** The message is the words of the parts, in order, joined by single spaces. */
  lemma MessageWords(icon: string, name: string, kind: string, tranId: string, amount: string,
                     currency: string, description: string, remarks: string, remarks2: string,
                     date: string)
    ensures var ps := Parts(icon, name, kind, tranId, amount, currency, description, remarks, remarks2, date);
      var text := Message(icon, name, kind, tranId, amount, currency, description, remarks, remarks2, date);
      && text == Join(FlatFields(ps), " ")
      && Fields(text) == FlatFields(ps)
  {
    var ps := Parts(icon, name, kind, tranId, amount, currency, description, remarks, remarks2, date);
    FieldsOfJoin(ps);
    FieldsValid(Join(ps, " "));
    FieldsJoin(FlatFields(ps));
  }

  /** The words that open the message: the icon, "New", "Unionbank", the
      words of the account name, then the transaction kind. */
  lemma MessageOpening(icon: string, name: string, kind: string, tranId: string, amount: string,
                       currency: string, description: string, remarks: string, remarks2: string,
                       date: string)
    requires icon != [] && NoSpace(icon) && kind != [] && NoSpace(kind)
    ensures var text := Message(icon, name, kind, tranId, amount, currency, description, remarks, remarks2, date);
      var words := Fields(text);
      var n := |Fields(name)|;
      && |words| > n + 3
      && words[0] == icon && words[1] == "New" && words[2] == "Unionbank"
      && (forall i :: 0 <= i < n ==> words[3 + i] == Fields(name)[i])
      && words[n + 3] == kind
      && |icon| <= |text| && text[..|icon|] == icon
  {
    var ps := Parts(icon, name, kind, tranId, amount, currency, description, remarks, remarks2, date);
    assert ps[1] == "New" && ps[2] == "Unionbank" && ps[3] == name && ps[4] == kind;
    assert forall i :: 0 <= i < 5 && i != 3 ==> ps[i] != [] && NoSpace(ps[i]) by {
      assert NoSpace("New") && NoSpace("Unionbank");
    }
    OpeningWords(ps);
    MessageWords(icon, name, kind, tranId, amount, currency, description, remarks, remarks2, date);
  }

  /** The fields of parts that open with three words, any string and a word. */
  lemma OpeningWords(ps: seq<string>)
    requires |ps| >= 5
    requires forall i :: 0 <= i < 5 && i != 3 ==> ps[i] != [] && NoSpace(ps[i])
    ensures var n := |Fields(ps[3])|;
      var words := FlatFields(ps);
      && |words| > n + 3
      && words[0] == ps[0] && words[1] == ps[1] && words[2] == ps[2]
      && (forall i :: 0 <= i < n ==> words[3 + i] == Fields(ps[3])[i])
      && words[n + 3] == ps[4]
  {
    var t5 := FlatFields(ps[5..]);
    var t4 := FlatFields(ps[4..]);
    assert t4 == [ps[4]] + t5 by {
      assert ps[4..][1..] == ps[5..];
      FieldsOfWord(ps[4]);
    }
    var t3 := FlatFields(ps[3..]);
    assert t3 == Fields(ps[3]) + t4 by { assert ps[3..][1..] == ps[4..]; }
    var t2 := FlatFields(ps[2..]);
    assert t2 == [ps[2]] + t3 by {
      assert ps[2..][1..] == ps[3..];
      FieldsOfWord(ps[2]);
    }
    var t1 := FlatFields(ps[1..]);
    assert t1 == [ps[1]] + t2 by {
      assert ps[1..][1..] == ps[2..];
      FieldsOfWord(ps[1]);
    }
    var words := FlatFields(ps);
    assert words == [ps[0]] + t1 by { FieldsOfWord(ps[0]); }
  }

  /** A successful notification is collapsed text that opens with the icon
      for the record's direction and names that direction right after the
      account name; it opens with the green heart exactly for credits. */
  lemma NotifyText(account: Account, rec: Record, render: Renderers)
    requires Notify(account, rec, render).Success?
    ensures var text := Notify(account, rec, render).value;
      var d := DirectionOf(rec.tranType);
      var words := Fields(text);
      var n := |Fields(account.name)|;
      && Collapsed(text)
      && |words| > n + 3
      && words[0] == Icon(d) && words[1] == "New" && words[2] == "Unionbank"
      && (forall i :: 0 <= i < n ==> words[3 + i] == Fields(account.name)[i])
      && words[n + 3] == Label(d)
      && words[0] == (if rec.tranType == "C" then ":green_heart:" else ":heart:")
      && words[n + 3] == (if rec.tranType == "C" then "Credit" else "Debit")
      && (|text| >= 13 && text[..13] == ":green_heart:" <==> rec.tranType == "C")
  {
    var d := DirectionOf(rec.tranType);
    var date := render.postedDate(rec.postedDate).value;
    var amount := render.amount(rec.amount).value;
    var text := Notify(account, rec, render).value;
    assert text == Message(Icon(d), account.name, Label(d), rec.tranId, amount, rec.currency,
                           rec.tranDescription, rec.remarks, rec.remarks2, date);
    MessageOpening(Icon(d), account.name, Label(d), rec.tranId, amount, rec.currency,
                   rec.tranDescription, rec.remarks, rec.remarks2, date);
    CollapseCollapsed(Template(Icon(d), account.name, Label(d), rec.tranId, amount, rec.currency,
                               rec.tranDescription, rec.remarks, rec.remarks2, date));
    if d == Debit {
      assert text[1] == 'h';
    }
  }

  /** A built message's words are, in order, the words of the format's parts
      filled from the record: icon, "New", "Unionbank", the account name,
      the kind, the id with its colon, the rendered amount, currency,
      description, remarks, remarks2, "on" and the rendered posted date. */
  lemma NotifyWords(account: Account, rec: Record, render: Renderers)
    requires Notify(account, rec, render).Success?
    ensures var d := DirectionOf(rec.tranType);
      Fields(Notify(account, rec, render).value)
        == FlatFields(Parts(Icon(d), account.name, Label(d), rec.tranId, render.amount(rec.amount).value,
                            rec.currency, rec.tranDescription, rec.remarks, rec.remarks2,
                            render.postedDate(rec.postedDate).value))
  {
    var d := DirectionOf(rec.tranType);
    MessageWords(Icon(d), account.name, Label(d), rec.tranId, render.amount(rec.amount).value,
                 rec.currency, rec.tranDescription, rec.remarks, rec.remarks2,
                 render.postedDate(rec.postedDate).value);
  }
}
