/**
 * The chart-of-accounts page: a new account is accepted only with a name, a type and a code; it
 * is posted, appended to the list, and the inputs are reset.
 */
module AccountPage {
  /** The account types offered; the first one is the default. */
  const AccountTypes: seq<string> := ["Asset", "Liability", "Equity", "Revenue", "Expense"]

  /** An account as the page lists it. */
  datatype Account = Account(id: int, name: string, accountType: string, code: string)

  /** `!name || !type || !code` fails: every input is non-empty. */
  predicate Accepts(name: string, accountType: string, code: string)
  {
    name != "" && accountType != "" && code != ""
  }

  /** Every account has a name, a type and a code: what the page lets through. */
  ghost predicate AllComplete(accounts: seq<Account>)
  {
    forall i :: 0 <= i < |accounts| ==> Accepts(accounts[i].name, accounts[i].accountType, accounts[i].code)
  }

  /** The page's state. */
  class AccountsPage {
    var accounts: seq<Account>
    var name: string
    var accountType: string
    var code: string

    constructor ()
      ensures accounts == [] && name == "" && accountType == AccountTypes[0] && code == ""
    {
      accounts := [];
      name := "";
      accountType := AccountTypes[0];
      code := "";
    }

    /**
     * `addAccount`. A missing input returns at once; a post that throws stops before anything
     * changes. Otherwise the account is appended under the id `now` and the inputs are reset.
     */
    method AddAccount(now: int, requestOk: bool)
      modifies this
      ensures !(Accepts(old(name), old(accountType), old(code)) && requestOk) ==>
        accounts == old(accounts) && name == old(name) && accountType == old(accountType) && code == old(code)
      ensures Accepts(old(name), old(accountType), old(code)) && requestOk ==>
        && accounts == old(accounts) + [Account(now, old(name), old(accountType), old(code))]
        && name == "" && accountType == AccountTypes[0] && code == ""
      ensures AllComplete(old(accounts)) ==> AllComplete(accounts)
    {
      if name == "" || accountType == "" || code == "" {
        return;
      }
      if !requestOk {
        return;
      }
      accounts := accounts + [Account(now, name, accountType, code)];
      name := "";
      accountType := AccountTypes[0];
      code := "";
    }
  }

  /** Every type the menu offers is non-empty, so the type check can only fail on a value set from elsewhere. */
  lemma MenuTypesPass(name: string, code: string, i: int)
    requires 0 <= i < |AccountTypes|
    ensures Accepts(name, AccountTypes[i], code) <==> name != "" && code != ""
  {
  }
}
