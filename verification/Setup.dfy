/**
 The package variables of src/admin/setup.go and the completion handler of src/admin/setup_handler.go, with
 the store they write to, proved to carry out SetupSpec.
 */
module Setup {
  import opened Common
  import Spec = SetupSpec

  /** setupToken and setupCompleted. */
  class Memory {
    var setupToken: string
    var setupCompleted: bool

    constructor ()
      ensures setupToken == "" && !setupCompleted
    {
      setupToken, setupCompleted := "", false;
    }

    /** `token` is the hexadecimal form of the random bytes, None when they cannot be read. */
    method GenerateSetupToken(token: Option<string>) returns (ok: bool)
      modifies this
      ensures ok == token.Some? && setupCompleted == old(setupCompleted)
      ensures setupToken == if ok then token.value else old(setupToken)
    {
      if token.None? { return false; }
      setupToken := token.value;
      return true;
    }

    method ValidateSetupToken(token: string) returns (ok: bool)
      ensures ok <==> !setupCompleted && token == setupToken
    {
      if setupCompleted { return false; }
      return token == setupToken;
    }

    method MarkSetupComplete()
      modifies this
      ensures setupCompleted && setupToken == ""
    {
      setupCompleted := true;
      setupToken := "";
    }

    method SetSetupComplete(completed: bool)
      modifies this
      ensures setupCompleted == completed && setupToken == old(setupToken)
    {
      setupCompleted := completed;
    }
  }

  class Store {
    var admins: set<string>
    var settings: map<string, string>

    constructor ()
      ensures admins == {} && settings == map[]
    {
      admins, settings := {}, map[];
    }

    /** user names are UNIQUE; `fault` is any other failure of the insert. */
    method CreateAdmin(username: string, fault: bool) returns (ok: bool)
      modifies this`admins
      ensures ok <==> !fault && username !in old(admins)
      ensures admins == if ok then old(admins) + {username} else old(admins)
    {
      if fault || username in admins { return false; }
      admins := admins + {username};
      return true;
    }

    method GetSetupComplete() returns (complete: bool)
      ensures complete <==> "setup_complete" in settings && settings["setup_complete"] in {"true", "1"}
    {
      if "setup_complete" !in settings { return false; }
      var value := settings["setup_complete"];
      return value == "true" || value == "1";
    }

    method SetSetupComplete(complete: bool, fault: bool) returns (ok: bool)
      modifies this`settings
      ensures ok == !fault
      ensures settings ==
        if ok then old(settings)["setup_complete" := if complete then "true" else "false"] else old(settings)
    {
      if fault { return false; }
      var value := "false";
      if complete { value := "true"; }
      settings := settings["setup_complete" := value];
      return true;
    }
  }

  /** ValidateSetupData: fills in the defaults of an acceptable form. */
  method ValidateSetupData(data: Spec.Data) returns (ok: bool, filled: Spec.Data)
    ensures ok <==>
      && 3 <= |data.username| <= 30 && |data.password| >= 8
      && data.mode in {"", "production", "development"}
    ensures ok ==> filled.username == data.username && filled.password == data.password
    ensures ok ==> filled.appName == if data.appName == "" then "casspeed" else data.appName
    ensures ok ==> filled.mode == if data.mode == "" then "production" else data.mode
    ensures ok ==> filled.timezone == if data.timezone == "" then "America/New_York" else data.timezone
  {
    filled := data;
    if data.username == "" || |data.username| < 3 || |data.username| > 30 { return false, filled; }
    if data.password == "" || |data.password| < 8 { return false, filled; }
    if filled.appName == "" { filled := filled.(appName := "casspeed"); }
    if filled.mode == "" { filled := filled.(mode := "production"); }
    if filled.mode != "production" && filled.mode != "development" { return false, filled; }
    if filled.timezone == "" { filled := filled.(timezone := "America/New_York"); }
    return true, filled;
  }

  class Wizard {
    const memory: Memory
    const store: Store

    constructor (memory: Memory, store: Store)
      ensures this.memory == memory && this.store == store
    {
      this.memory, this.store := memory, store;
    }

    ghost function View(): Spec.State
      reads memory, store
    {
      Spec.State(memory.setupToken, memory.setupCompleted,
                 if "setup_complete" in store.settings then Some(store.settings["setup_complete"]) else None,
                 store.admins, true)
    }

    /** SetupTokenHandler for a POST with a readable form: the page that is shown. */
    method SubmitToken(token: string) returns (page: Spec.TokenResponse)
      ensures page == Spec.ToAdmin <==> View().completed
      ensures page == Spec.ToWizard <==> token != "" && Spec.Validates(View(), token)
    {
      if memory.setupCompleted { return Spec.ToAdmin; }
      if token == "" { return Spec.TokenPage; }
      var ok := memory.ValidateSetupToken(token);
      if !ok { return Spec.TokenPage; }
      return Spec.ToWizard;
    }

    /** SetupCompleteHandler for a POST with a well-formed body. */
    method SetupComplete(data: Spec.Data, faults: Spec.Faults) returns (r: Spec.Response)
      modifies memory, store
      ensures (View(), r) == Spec.Complete(old(View()), data, faults)
    {
      if memory.setupCompleted { return Spec.AlreadyCompleted; }
      var ok, filled := ValidateSetupData(data);
      if !ok { return Spec.Invalid; }
      if faults.prepare { return Spec.PreparationFailed; }
      ok := store.CreateAdmin(filled.username, faults.create);
      if !ok { return Spec.CreateFailed; }
      memory.MarkSetupComplete();
      ok := store.SetSetupComplete(true, faults.save);
      if !ok { return Spec.SaveFailed; }
      return Spec.Completed;
    }

    /** The start of a process over fresh memory: server.New, then main; tells whether it goes on to serve. */
    method Boot(readable: bool, drawn: Option<string>) returns (serving: bool)
      requires memory.setupToken == "" && !memory.setupCompleted
      modifies memory
      ensures View().(running := serving) == Spec.Restart(old(View()), readable, drawn)
    {
      if !readable { return false; }
      var complete := store.GetSetupComplete();
      memory.SetSetupComplete(complete);
      if !memory.setupCompleted {
        serving := memory.GenerateSetupToken(drawn);
        return;
      }
      return true;
    }
  }
}
