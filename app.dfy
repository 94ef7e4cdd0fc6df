/** The state of the `App` component and its event handlers. Each React
    `setX` call is modelled as an immediate assignment to field `x`; a
    `confirm` dialog's answer is a parameter; an `alert` is returned as its
    text and changes no state. */
module AppComponent {
  import opened PairStore

  /** Alerted by submit when the password field is empty. */
  const EmptyPasswordAlert: string := "Parola boş olamaz."
  /** Alerted by import when the file holds JSON that is not an array. */
  const FormatAlert: string := "Beklenen format: [{pw, msg}, ...]"
  /** Prefix of the alert shown when the file is not JSON at all. */
  const ParseAlertPrefix: string := "JSON ayrıştırılamadı: "

  /** The edit form is either adding new records or editing record `index`. */
  datatype FormMode = Idle | Editing(index: nat)

  /** What `JSON.parse` made of an imported file. */
  datatype Parsed = ParsedArray(items: seq<Pair>) | ParsedOther | ParseFailure(reason: string)

  class App {
    var pairs: seq<Pair>
    var passwordInput: string
    var revealMessage: Option<string>
    var newPw: string
    var newMsg: string
    var editingIndex: int
    var filter: string

    /** `editingIndex` is -1 (adding) or the index being edited. */
    function Mode(): FormMode
      reads this
    {
      if editingIndex < 0 then Idle else Editing(editingIndex)
    }

    /** The rows currently listed, each with its index in `pairs`. */
    function View(): seq<Entry>
      reads this
    {
      Visible(pairs, filter)
    }

    /** The initial `useState` values. */
    constructor ()
      ensures pairs == [] && passwordInput == "" && revealMessage == None
      ensures newPw == "" && newMsg == "" && filter == ""
      ensures editingIndex == -1 && Mode() == Idle
    {
      pairs := [];
      passwordInput := "";
      revealMessage := None;
      newPw := "";
      newMsg := "";
      editingIndex := -1;
      filter := "";
    }

    // The onChange handlers of the three text inputs. Nothing in the
    // component ever calls `setFilter`, so `filter` keeps its initial "".

    method SetPasswordInput(s: string)
      modifies this`passwordInput
      ensures passwordInput == s
    {
      passwordInput := s;
    }

    method SetNewPw(s: string)
      modifies this`newPw
      ensures newPw == s
    {
      newPw := s;
    }

    method SetNewMsg(s: string)
      modifies this`newMsg
      ensures newMsg == s
    {
      newMsg := s;
    }

    /** Save the form: rejected with an alert when the password is empty;
        otherwise append `{pw: newPw, msg: newMsg}` when adding, or replace
        the edited record wholesale and go back to adding. Either way the
        form is cleared. The edited index must still be in range: nothing in
        the component keeps it so (delete and import leave it alone). */
    method SubmitNew() returns (alert: Option<string>)
      requires editingIndex >= 0 ==> editingIndex < |pairs|
      modifies this`pairs, this`editingIndex, this`newPw, this`newMsg
      ensures alert == (if old(newPw) == "" then Some(EmptyPasswordAlert) else None)
      ensures old(newPw) == "" ==>
                pairs == old(pairs) && editingIndex == old(editingIndex) &&
                newPw == old(newPw) && newMsg == old(newMsg)
      ensures old(newPw) != "" && old(editingIndex) < 0 ==>
                pairs == old(pairs) + [Pair(old(newPw), old(newMsg))] &&
                editingIndex == old(editingIndex)
      ensures old(newPw) != "" && old(editingIndex) >= 0 ==>
                |pairs| == |old(pairs)| &&
                pairs[old(editingIndex)] == Pair(old(newPw), old(newMsg)) &&
                (forall j :: 0 <= j < |pairs| && j != old(editingIndex) ==> pairs[j] == old(pairs)[j]) &&
                editingIndex == -1 && Mode() == Idle
      ensures old(newPw) != "" ==> newPw == "" && newMsg == ""
    {
      if newPw == "" {
        return Some(EmptyPasswordAlert);
      }
      var item := Pair(newPw, newMsg);
      if editingIndex >= 0 {
        var copy := pairs;
        copy := copy[editingIndex := item];
        pairs := copy;
        editingIndex := -1;
      } else {
        pairs := pairs + [item];
      }
      newPw := "";
      newMsg := "";
      alert := None;
    }

    /** Show the message of the first record whose password is exactly
        `passwordInput`; the store itself is not touched. */
    method TryReveal()
      modifies this`revealMessage
      ensures revealMessage == Some(RevealText(pairs, passwordInput))
    {
      var found := FirstMatch(pairs, passwordInput);
      if found.Some? {
        revealMessage := Some(Shown(pairs[found.value].msg));
      } else {
        revealMessage := Some(NoMatchText);
      }
    }

    /** Start editing record `i`: the form is filled from it. */
    method Edit(i: int)
      requires 0 <= i < |pairs|
      modifies this`editingIndex, this`newPw, this`newMsg
      ensures editingIndex == i && Mode() == Editing(i)
      ensures newPw == pairs[i].pw && newMsg == pairs[i].msg
    {
      editingIndex := i;
      newPw := pairs[i].pw;
      newMsg := pairs[i].msg;
    }

    /** Remove record `i` once the user confirms. `editingIndex` is left as
        it was, so an edit in progress may now name another record. */
    method Delete(i: int, confirmed: bool)
      requires 0 <= i < |pairs|
      modifies this`pairs
      ensures !confirmed ==> pairs == old(pairs)
      ensures confirmed ==> pairs == RemoveAt(old(pairs), i)
    {
      if !confirmed {
        return;
      }
      var copy := pairs;
      copy := copy[..i] + copy[i + 1..];
      pairs := copy;
    }

    /** The "İptal" button, shown only while editing: back to adding with an
        empty form. */
    method Cancel()
      requires editingIndex >= 0
      modifies this`editingIndex, this`newPw, this`newMsg
      ensures editingIndex == -1 && Mode() == Idle
      ensures newPw == "" && newMsg == ""
    {
      editingIndex := -1;
      newPw := "";
      newMsg := "";
    }

    /** The edit button of row `k` of the list: edits the record that row shows. */
    method EditRow(k: int)
      requires 0 <= k < |View()|
      modifies this`editingIndex, this`newPw, this`newMsg
      ensures editingIndex == View()[k].index
      ensures newPw == View()[k].pair.pw && newMsg == View()[k].pair.msg
    {
      var row := Visible(pairs, filter)[k];
      Edit(row.index);
    }

    /** The delete button of row `k` of the list: removes the record that
        row shows, and the list then shows every other row unchanged. */
    method DeleteRow(k: int, confirmed: bool)
      requires 0 <= k < |View()|
      modifies this`pairs
      ensures !confirmed ==> pairs == old(pairs)
      ensures confirmed ==> pairs == RemoveAt(old(pairs), old(View())[k].index)
      ensures confirmed ==> Records(View()) == RemoveAt(Records(old(View())), k)
    {
      var row := Visible(pairs, filter)[k];
      DeleteFromView(pairs, filter, k);
      Delete(row.index, confirmed);
    }

    /** The file reader's onload: the list is replaced only when the file
        parsed to an array; anything else is alerted. */
    method Import(parsed: Parsed) returns (alert: Option<string>)
      modifies this`pairs
      ensures parsed.ParsedArray? ==> pairs == parsed.items && alert == None
      ensures parsed.ParsedOther? ==> pairs == old(pairs) && alert == Some(FormatAlert)
      ensures parsed.ParseFailure? ==>
                pairs == old(pairs) && alert == Some(ParseAlertPrefix + parsed.reason)
    {
      match parsed
      case ParsedArray(items) =>
        pairs := items;
        alert := None;
      case ParsedOther =>
        alert := Some(FormatAlert);
      case ParseFailure(reason) =>
        alert := Some(ParseAlertPrefix + reason);
    }
  }

  /** Saving and revealing, driven only through the handlers' contracts. */
  method RevealSession()
  {
    var app := new App();
    var alert := app.SubmitNew();
    assert alert == Some(EmptyPasswordAlert) && app.pairs == [];

    app.SetNewPw("abc");
    app.SetNewMsg("hi");
    alert := app.SubmitNew();
    assert app.pairs == [Pair("abc", "hi")];
    app.SetNewPw("a");
    alert := app.SubmitNew();
    assert app.pairs == [Pair("abc", "hi"), Pair("a", "")];

    app.SetPasswordInput("abc");
    app.TryReveal();
    assert app.revealMessage == Some("hi");
    app.SetPasswordInput("xyz");
    app.TryReveal();
    assert app.revealMessage == Some(NoMatchText);
  }

  /** Editing record 1 and then deleting record 0 leaves the edit index
      past the end of the list; a later import also keeps it. */
  method StaleEditSession(app: App)
    requires app.pairs == [Pair("p", ""), Pair("q", "")] && app.Mode() == Idle
    modifies app
  {
    app.Edit(1);
    assert RemoveAt(app.pairs, 0) == [Pair("q", "")];
    app.Delete(0, true);
    assert app.pairs == [Pair("q", "")] && app.Mode() == Editing(1);

    var alert := app.Import(ParsedOther);
    assert alert == Some(FormatAlert) && app.Mode() == Editing(1);
    app.Cancel();
    assert app.Mode() == Idle && app.pairs == [Pair("q", "")];
  }
}
