/**
 * The inputs of one change to standalone.xml or domain.xml
 * (org.wildfly.plugins.RegisterOptions): a fluent builder whose setters each
 * assign one field and return the builder, and whose getInserts/getRemoves
 * replace a null array by an empty one and keep it.
 */
module WildflyRegisterOptions {
  import opened JavaLang
  import opened WildflyInsert

  /** Every field of the builder, as a value. */
  datatype Fields = Fields(
    serverConfig: Option<File>,
    serverConfigBackup: Option<File>,
    subsystem: Option<File>,
    socketBinding: Option<File>,
    socketBindingGroups: JStringArray,
    inserts: Option<seq<Insert>>,
    removes: JStringArray,
    moduleId: JString,
    failNoMatch: bool)

  class RegisterOptions {
    var serverConfig: Option<File>
    var serverConfigBackup: Option<File>
    var subsystem: Option<File>
    var socketBinding: Option<File>
    var socketBindingGroups: JStringArray
    var inserts: Option<seq<Insert>>
    var removes: JStringArray
    var moduleId: JString
    var failNoMatch: bool

    function State(): Fields
      reads this
    {
      Fields(serverConfig, serverConfigBackup, subsystem, socketBinding, socketBindingGroups,
             inserts, removes, moduleId, failNoMatch)
    }

    /** A fresh builder: every reference null, failNoMatch false. */
    constructor ()
      ensures State() == Fields(None, None, None, None, None, None, None, None, false)
    {
      serverConfig, serverConfigBackup, subsystem, socketBinding := None, None, None, None;
      socketBindingGroups, inserts, removes, moduleId := None, None, None, None;
      failNoMatch := false;
    }

    method FailNoMatch(failNoMatch: bool) returns (r: RegisterOptions)
      modifies this
      ensures r == this && State() == old(State()).(failNoMatch := failNoMatch)
      ensures IsFailNoMatch() == failNoMatch
    {
      this.failNoMatch := failNoMatch;
      r := this;
    }

    method WithExtension(moduleId: JString) returns (r: RegisterOptions)
      modifies this
      ensures r == this && State() == old(State()).(moduleId := moduleId)
      ensures GetModuleId() == moduleId
    {
      this.moduleId := moduleId;
      r := this;
    }

    method ServerConfigBackup(serverConfigBackup: Option<File>) returns (r: RegisterOptions)
      modifies this
      ensures r == this && State() == old(State()).(serverConfigBackup := serverConfigBackup)
      ensures GetServerConfigBackup() == serverConfigBackup
    {
      this.serverConfigBackup := serverConfigBackup;
      r := this;
    }

    method ServerConfig(serverConfig: Option<File>) returns (r: RegisterOptions)
      modifies this
      ensures r == this && State() == old(State()).(serverConfig := serverConfig)
      ensures GetServerConfig() == serverConfig
    {
      this.serverConfig := serverConfig;
      r := this;
    }

    method Subsystem(subsystem: Option<File>) returns (r: RegisterOptions)
      modifies this
      ensures r == this && State() == old(State()).(subsystem := subsystem)
      ensures GetSubsystem() == subsystem
    {
      this.subsystem := subsystem;
      r := this;
    }

    method SocketBinding(socketBinding: Option<File>) returns (r: RegisterOptions)
      modifies this
      ensures r == this && State() == old(State()).(socketBinding := socketBinding)
      ensures GetSocketBinding() == socketBinding
    {
      this.socketBinding := socketBinding;
      r := this;
    }

    method SocketBindingGroups(socketBindingGroups: JStringArray) returns (r: RegisterOptions)
      modifies this
      ensures r == this && State() == old(State()).(socketBindingGroups := socketBindingGroups)
      ensures GetSocketBindingGroups() == socketBindingGroups
    {
      this.socketBindingGroups := socketBindingGroups;
      r := this;
    }

    method Inserts(inserts: Option<seq<Insert>>) returns (r: RegisterOptions)
      modifies this
      ensures r == this && State() == old(State()).(inserts := inserts)
    {
      this.inserts := inserts;
      r := this;
    }

    method Removes(removes: JStringArray) returns (r: RegisterOptions)
      modifies this
      ensures r == this && State() == old(State()).(removes := removes)
    {
      this.removes := removes;
      r := this;
    }

    /**
     * The caller's edits; a null array is replaced by an empty one, which is
     * stored, so every later call returns that same array.
     */
    method GetInserts() returns (r: seq<Insert>)
      modifies this
      ensures old(inserts).Some? ==> r == old(inserts).value && State() == old(State())
      ensures old(inserts).None? ==> r == [] && State() == old(State()).(inserts := Some([]))
      ensures inserts == Some(r)
    {
      if inserts.None? {
        inserts := Some([]);
      }
      r := inserts.value;
    }

    /** Same lazy empty default as GetInserts, for the removal list. */
    method GetRemoves() returns (r: seq<JString>)
      modifies this
      ensures old(removes).Some? ==> r == old(removes).value && State() == old(State())
      ensures old(removes).None? ==> r == [] && State() == old(State()).(removes := Some([]))
      ensures removes == Some(r)
    {
      if removes.None? {
        removes := Some([]);
      }
      r := removes.value;
    }

    // The getters read one field of the builder's state each, nulls included.

    function GetServerConfig(): (r: Option<File>)
      reads this
      ensures r == State().serverConfig
    { serverConfig }

    function GetSocketBinding(): (r: Option<File>)
      reads this
      ensures r == State().socketBinding
    { socketBinding }

    function GetSubsystem(): (r: Option<File>)
      reads this
      ensures r == State().subsystem
    { subsystem }

    function GetSocketBindingGroups(): (r: JStringArray)
      reads this
      ensures r == State().socketBindingGroups
    { socketBindingGroups }

    function GetModuleId(): (r: JString)
      reads this
      ensures r == State().moduleId
    { moduleId }

    function GetServerConfigBackup(): (r: Option<File>)
      reads this
      ensures r == State().serverConfigBackup
    { serverConfigBackup }

    function IsFailNoMatch(): (r: bool)
      reads this
      ensures r == State().failNoMatch
    { failNoMatch }
  }
}
