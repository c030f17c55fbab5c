/**
 * The application state behind the window of src/main.rs: the account list,
 * the "Edit account" dialog, and the contents of `accounts.dat`.
 *
 * Each method is one user action in one frame. The clock reading
 * (`Utc::now().timestamp()`, an `i64`), the text `format_date` shows for a
 * date, and the outcome of parsing the dialog's date field are parameters.
 * `disk` stands for the file: `save_accounts` replaces it with the encoded
 * account list.
 */
module Notifier {
  import opened Base
  import opened Accounts
  import Codec

  /** The name a newly added account starts with. */
  const DEFAULT_NAME: string := "Account name"

  class CasesNotifier {
    var accounts: seq<Account>
    /** `editing_account`: the "Edit account" dialog is open. */
    var editing: bool
    /** `account_to_edit`: the account the dialog edits. */
    var accountToEdit: nat
    /** `editing_date`: the text of the dialog's date field. */
    var editingDate: string
    /** The contents of `accounts.dat`; None while there is no such file. */
    var disk: Option<seq<byte>>

    /** The dialog, when open, edits an account that exists. */
    ghost predicate Valid()
      reads this
    {
      editing ==> accountToEdit < |accounts|
    }

    /** The file holds exactly the current account list. */
    ghost predicate Saved()
      reads this
    {
      disk == Some(Codec.Encode(accounts))
    }

    constructor (accounts: seq<Account>, disk: Option<seq<byte>>)
      ensures this.accounts == accounts && this.disk == disk
      ensures !editing && accountToEdit == 0 && editingDate == ""
      ensures Valid()
    {
      this.accounts := accounts;
      editing := false;
      accountToEdit := 0;
      editingDate := "";
      this.disk := disk;
    }

    /**
     * `CasesNotifier::default`: the accounts `load_accounts` reads from the
     * file, with the dialog closed; an error where loading panics.
     */
    static method Default(file: Option<seq<byte>>) returns (r: Result<CasesNotifier, Codec.LoadError>)
      ensures r.Ok? <==> Codec.LoadedFrom(file).Ok?
      ensures r.Err? ==> r.error == Codec.LoadedFrom(file).error
      ensures r.Ok? ==>
        && fresh(r.value) && r.value.Valid()
        && r.value.accounts == Codec.LoadedFrom(file).value && r.value.disk == file
        && !r.value.editing && r.value.accountToEdit == 0 && r.value.editingDate == ""
    {
      var loaded := Codec.LoadAccounts(file);
      match loaded
      case Err(e) =>
        r := Err(e);
      case Ok(accounts) =>
        var n := new CasesNotifier(accounts, file);
        r := Ok(n);
    }

    /** `save_accounts(&self.accounts)`. */
    method Save()
      modifies this
      ensures Saved()
      ensures accounts == old(accounts) && editing == old(editing)
      ensures accountToEdit == old(accountToEdit) && editingDate == old(editingDate)
    {
      var file := Codec.SaveAccounts(accounts);
      disk := Some(file);
    }

    /**
     * "Add account", ignored while the dialog is open: append an account
     * named "Account name" whose last drop is now, open the dialog on it
     * with `shown` (the formatted date) in the date field, and save.
     */
    method AddAccount(clock: i64, shown: string)
      requires Valid()
      modifies this
      ensures Valid()
      ensures old(editing) ==> unchanged(this)
      ensures !old(editing) ==>
        && accounts == old(accounts) + [Account(DEFAULT_NAME, I64AsU64(clock))]
        && editing && accountToEdit == |old(accounts)| && editingDate == shown
        && Saved()
    {
      if !editing {
        accounts := accounts + [Account(DEFAULT_NAME, I64AsU64(clock))];
        editing := true;
        accountToEdit := |accounts| - 1;
        editingDate := shown;
        Save();
      }
    }

    /**
     * "Edit" on account `i`, ignored while the dialog is open: open the
     * dialog on it with `shown` (its formatted date) in the date field.
     * Nothing is saved.
     */
    method Edit(i: nat, shown: string)
      requires Valid() && i < |accounts|
      modifies this
      ensures Valid()
      ensures old(editing) ==> unchanged(this)
      ensures !old(editing) ==>
        && editing && accountToEdit == i && editingDate == shown
        && accounts == old(accounts) && disk == old(disk)
    {
      if !editing {
        editing := true;
        accountToEdit := i;
        editingDate := shown;
      }
    }

    /**
     * "Delete" on account `i`, ignored while the dialog is open: remove it,
     * keeping the others in order, and save.
     */
    method Delete(i: nat)
      requires Valid() && i < |accounts|
      modifies this
      ensures Valid()
      ensures old(editing) ==> unchanged(this)
      ensures !old(editing) ==>
        && |accounts| == |old(accounts)| - 1
        && (forall j :: 0 <= j < i ==> accounts[j] == old(accounts)[j])
        && (forall j :: i <= j < |accounts| ==> accounts[j] == old(accounts)[j + 1])
        && !editing && accountToEdit == old(accountToEdit) && editingDate == old(editingDate)
        && Saved()
    {
      if !editing {
        accounts := accounts[..i] + accounts[i + 1..];
        Save();
      }
    }

    /**
     * "Reset timer" on account `i`, ignored while the dialog is open: its
     * last drop becomes now; nothing else about it changes. Then save.
     */
    method ResetTimer(i: nat, clock: i64)
      requires Valid() && i < |accounts|
      modifies this
      ensures Valid()
      ensures old(editing) ==> unchanged(this)
      ensures !old(editing) ==>
        && accounts == old(accounts)[i := Account(old(accounts)[i].name, I64AsU64(clock))]
        && !editing && accountToEdit == old(accountToEdit) && editingDate == old(editingDate)
        && Saved()
    {
      if !editing {
        accounts := accounts[i := accounts[i].(date := I64AsU64(clock))];
        Save();
      }
    }

    /**
     * One frame of the open "Edit account" dialog: the name field holds
     * `name`, the date field holds `text`, and when `text` parses as a local
     * date and time (`parsed`, its timestamp) the account's last drop
     * becomes that timestamp. Nothing is saved; with the dialog closed
     * nothing happens.
     */
    method EditWindow(name: string, text: string, parsed: Option<i64>)
      requires Valid()
      modifies this
      ensures Valid()
      ensures !old(editing) ==> unchanged(this)
      ensures old(editing) ==>
        && editing && accountToEdit == old(accountToEdit) && |accounts| == |old(accounts)|
        && accounts[accountToEdit] == Account(name,
             if parsed.Some? then I64AsU64(parsed.value) else old(accounts)[accountToEdit].date)
        && (forall j :: 0 <= j < |accounts| && j != accountToEdit ==> accounts[j] == old(accounts)[j])
        && editingDate == text && disk == old(disk)
    {
      if editing {
        var date := if parsed.Some? then I64AsU64(parsed.value) else accounts[accountToEdit].date;
        accounts := accounts[accountToEdit := Account(name, date)];
        editingDate := text;
      }
    }

    /** Closing the open dialog: it is no longer shown, and the accounts are saved. */
    method CloseEdit()
      requires Valid()
      modifies this
      ensures Valid()
      ensures !old(editing) ==> unchanged(this)
      ensures old(editing) ==>
        && !editing && accounts == old(accounts)
        && accountToEdit == old(accountToEdit) && editingDate == old(editingDate)
        && Saved()
    {
      if editing {
        editing := false;
        Save();
      }
    }

    /**
     * The "Accounts ready" count: the accounts whose remaining time is zero,
     * each judged at its own clock reading (`get_remaining_time` reads
     * `Local::now()` once per account, cast `as u64`); None where computing
     * some account's next date panics. The count is the number of accounts
     * ready at their readings, and so never exceeds the number of accounts.
     */
    method ReadyCount(clocks: seq<i64>) returns (count: Option<nat>)
      requires |clocks| == |accounts|
      ensures count == CountReadyAt(accounts, Readings(clocks))
      ensures count.Some? ==> count.value <= |accounts|
      ensures count.Some? ==> count.value == |ReadyAtIndices(accounts, Readings(clocks))|
    {
      ghost var nows := Readings(clocks);
      var n := 0;
      var i := 0;
      while i < |accounts|
        invariant 0 <= n <= i <= |accounts|
        invariant CountReadyAt(accounts[..i], nows[..i]) == Some(n)
      {
        var r := accounts[i].RemainingTime(I64AsU64(clocks[i]));
        assert accounts[..i + 1][..i] == accounts[..i] && nows[..i + 1][..i] == nows[..i];
        assert CountReadyAt(accounts[..i + 1], nows[..i + 1]) == Tally(r, Some(n));
        if r.None? {
          CountReadyAtDefined(accounts, nows);
          return None;
        }
        if r.value == 0 {
          n := n + 1;
        }
        i := i + 1;
      }
      assert accounts[..i] == accounts && nows[..i] == nows;
      count := Some(n);
      CountReadyAtIsReadyIndices(accounts, nows);
    }
  }

  /** The `as u64` casts of a series of `i64` clock readings. */
  function Readings(clocks: seq<i64>): (nows: seq<u64>)
    ensures |nows| == |clocks|
    ensures forall i :: 0 <= i < |clocks| ==> nows[i] == I64AsU64(clocks[i])
  {
    seq(|clocks|, i requires 0 <= i < |clocks| => I64AsU64(clocks[i]))
  }

  /**
   * What the application writes it reads back on its next start: once the
   * file holds the saved list, and no name holds U+0000 (the record
   * terminator), `Default` on that file yields the same accounts.
   */
  lemma {:induction false} ReloadSaved(n: CasesNotifier)
    requires n.Saved()
    requires forall i :: 0 <= i < |n.accounts| ==> Codec.StorableName(n.accounts[i].name)
    ensures Codec.LoadedFrom(n.disk) == Ok(n.accounts)
  {
    Codec.DecodeEncode(n.accounts);
  }
}
