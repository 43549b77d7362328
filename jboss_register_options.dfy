/**
 * The inputs of the XSLT-based registration (org.jboss.plugins.RegisterOptions):
 * a fluent builder of five fields, each setter assigning one field and
 * returning the builder, each getter reading one field back.
 */
module JbossRegisterOptions {
  import opened JavaLang

  /** Every field of the builder, as a value. */
  datatype Fields = Fields(
    serverConfig: Option<File>,
    subsystem: Option<File>,
    profiles: JStringArray,
    socketBinding: Option<File>,
    socketBindingGroups: JStringArray)

  class RegisterOptions {
    var serverConfig: Option<File>
    var subsystem: Option<File>
    var profiles: JStringArray
    var socketBinding: Option<File>
    var socketBindingGroups: JStringArray

    function State(): Fields
      reads this
    {
      Fields(serverConfig, subsystem, profiles, socketBinding, socketBindingGroups)
    }

    /** A fresh builder: every field null. */
    constructor ()
      ensures State() == Fields(None, None, None, None, None)
    {
      serverConfig, subsystem, profiles, socketBinding, socketBindingGroups := None, None, None, None, None;
    }

    method ServerConfig(serverConfig: Option<File>) returns (r: RegisterOptions)
      modifies this
      ensures r == this && State() == old(State()).(serverConfig := serverConfig)
      ensures GetServerConfig() == serverConfig
    {
      this.serverConfig := serverConfig;
      r := this;
    }

    method Subsystem(subsystem: Option<File>) returns (r: RegisterOptions)
      modifies this
      ensures r == this && State() == old(State()).(subsystem := subsystem)
      ensures GetSubsystem() == subsystem
    {
      this.subsystem := subsystem;
      r := this;
    }

    method SocketBinding(socketBinding: Option<File>) returns (r: RegisterOptions)
      modifies this
      ensures r == this && State() == old(State()).(socketBinding := socketBinding)
      ensures GetSocketBinding() == socketBinding
    {
      this.socketBinding := socketBinding;
      r := this;
    }

    /** Sets the profile names; profiles(null) clears them and nothing else. */
    method Profiles(profiles: JStringArray) returns (r: RegisterOptions)
      modifies this
      ensures r == this && State() == old(State()).(profiles := profiles)
      ensures GetProfiles() == profiles
    {
      this.profiles := profiles;
      r := this;
    }

    method SocketBindingGroups(socketBindingGroups: JStringArray) returns (r: RegisterOptions)
      modifies this
      ensures r == this && State() == old(State()).(socketBindingGroups := socketBindingGroups)
      ensures GetSocketBindingGroups() == socketBindingGroups
    {
      this.socketBindingGroups := socketBindingGroups;
      r := this;
    }

    // The getters read one field of the builder's state each, nulls included.

    function GetProfiles(): (r: JStringArray)
      reads this
      ensures r == State().profiles
    { profiles }

    function GetServerConfig(): (r: Option<File>)
      reads this
      ensures r == State().serverConfig
    { serverConfig }

    function GetSocketBinding(): (r: Option<File>)
      reads this
      ensures r == State().socketBinding
    { socketBinding }

    function GetSubsystem(): (r: Option<File>)
      reads this
      ensures r == State().subsystem
    { subsystem }

    function GetSocketBindingGroups(): (r: JStringArray)
      reads this
      ensures r == State().socketBindingGroups
    { socketBindingGroups }
  }
}
