/**
 * Assembly of the edit list handed to the XML patch engine
 * (org.wildfly.plugins.RegisterExtension.register): the caller's own edits,
 * then the extension module, then the subsystem, then one socket-binding edit
 * per socket-binding group.
 */
module WildflyRegisterExtension {
  import opened JavaLang
  import opened WildflyInsert
  import opened WildflyRegisterOptions

  const ExtensionsSelect: string := "/server/extensions"
  const ProfileSelect: string := "/server/profile"

  function ExtensionXml(moduleId: string): string
  {
    "<extension module=\"" + moduleId + "\"/>"
  }

  function GroupSelect(group: JString): string
  {
    "/server/socket-binding-group[@name='" + Text(group) + "']"
  }

  /** The edit registering a module as an extension: its xml is an extension element. */
  function ExtensionEdit(moduleId: string): InsertValue
  {
    InsertValue(Some(ExtensionsSelect), None, Some(ExtensionXml(moduleId)), None)
  }

  /** The edit placing the subsystem file under the profile. */
  function SubsystemEdit(subsystem: File): InsertValue
  {
    InsertValue(Some(ProfileSelect), Some(subsystem), None, None)
  }

  /** The edit placing the socket-binding file under one group, identified by its name attribute. */
  function GroupEdit(group: JString, socketBinding: File): InsertValue
  {
    InsertValue(Some(GroupSelect(group)), Some(socketBinding), None, Some("name"))
  }

  /** One socket-binding edit per group, in group order. */
  function GroupEdits(groups: seq<JString>, socketBinding: File): (r: seq<InsertValue>)
    ensures |r| == |groups|
    ensures forall j :: 0 <= j < |groups| ==> r[j] == GroupEdit(groups[j], socketBinding)
  {
    if |groups| == 0 then []
    else [GroupEdit(groups[0], socketBinding)] + GroupEdits(groups[1..], socketBinding)
  }

  /**
   * The edits register adds after the caller's own: the extension when a module
   * id is set, the subsystem when one is set, and the socket-binding edits only
   * when both the groups and the socket-binding file are set.
   */
  function GeneratedEdits(f: Fields): seq<InsertValue>
  {
    FixedEdits(f) + SocketBindingEdits(f)
  }

  /** The extension and subsystem edits, each present when its field is set. */
  function FixedEdits(f: Fields): seq<InsertValue>
  {
    ExtensionEdits(f.moduleId) + SubsystemEdits(f.subsystem)
  }

  function ExtensionEdits(moduleId: JString): seq<InsertValue>
  {
    if moduleId.Some? then [ExtensionEdit(moduleId.value)] else []
  }

  function SubsystemEdits(subsystem: Option<File>): seq<InsertValue>
  {
    if subsystem.Some? then [SubsystemEdit(subsystem.value)] else []
  }

  /** The socket-binding edits, present only when both the groups and the file are set. */
  function SocketBindingEdits(f: Fields): seq<InsertValue>
  {
    if f.socketBindingGroups.Some? && f.socketBinding.Some?
    then GroupEdits(f.socketBindingGroups.value, f.socketBinding.value) else []
  }

  function Count(b: bool): nat { if b then 1 else 0 }

  /** How many edits register adds. */
  lemma {:induction false} GeneratedCount(f: Fields)
    ensures |GeneratedEdits(f)| ==
      Count(f.moduleId.Some?) + Count(f.subsystem.Some?)
      + (if f.socketBindingGroups.Some? && f.socketBinding.Some? then |f.socketBindingGroups.value| else 0)
  {
  }

  /** The extension edit comes first, and the subsystem edit right after it. */
  lemma ExtensionThenSubsystem(f: Fields)
    ensures f.moduleId.Some? ==> GeneratedEdits(f)[0] == ExtensionEdit(f.moduleId.value)
    ensures f.subsystem.Some? ==>
      var i := Count(f.moduleId.Some?);
      i < |GeneratedEdits(f)| && GeneratedEdits(f)[i] == SubsystemEdit(f.subsystem.value)
  {
  }

  /** The j-th group gives the j-th socket-binding edit, after the extension and subsystem edits. */
  lemma GroupEditAt(f: Fields, j: nat)
    requires f.socketBindingGroups.Some? && f.socketBinding.Some?
    requires j < |f.socketBindingGroups.value|
    ensures
      var i := Count(f.moduleId.Some?) + Count(f.subsystem.Some?) + j;
      i < |GeneratedEdits(f)|
      && GeneratedEdits(f)[i] == GroupEdit(f.socketBindingGroups.value[j], f.socketBinding.value)
  {
    var fixed := FixedEdits(f);
    var groups := GroupEdits(f.socketBindingGroups.value, f.socketBinding.value);
    assert |fixed| == Count(f.moduleId.Some?) + Count(f.subsystem.Some?);
    assert GeneratedEdits(f) == fixed + groups;
    assert groups[j] == GroupEdit(f.socketBindingGroups.value[j], f.socketBinding.value);
    assert (fixed + groups)[|fixed| + j] == groups[j];
  }

  /** Only socket-binding edits carry an identity attribute; without both the groups and the file there are none. */
  lemma IdentityOnlyForGroups(f: Fields)
    ensures forall e :: e in GeneratedEdits(f) ==> (e.attribute.Some? <==> e.attribute == Some("name"))
    ensures !(f.socketBindingGroups.Some? && f.socketBinding.Some?) ==>
      forall e :: e in GeneratedEdits(f) ==> e.attribute.None?
  {
  }

  /** What register hands to the XML patch engine. */
  datatype BuilderCall = BuilderCall(source: Option<File>, target: Option<File>, inserts: seq<Insert>, failNoMatch: bool)

  /** The for loop over the groups: one new named edit per group appended, in order. */
  method AppendGroupEdits(inserts: seq<Insert>, groups: seq<JString>, socketBinding: File) returns (r: seq<Insert>)
    ensures |r| == |inserts| + |groups| && r[..|inserts|] == inserts
    ensures forall k :: |inserts| <= k < |r| ==>
      fresh(r[k]) && r[k].Value() == GroupEdit(groups[k - |inserts|], socketBinding)
  {
    r := inserts;
    var i := 0;
    while i < |groups|
      invariant 0 <= i <= |groups|
      invariant |r| == |inserts| + i && r[..|inserts|] == inserts
      invariant forall k :: |inserts| <= k < |r| ==>
        fresh(r[k]) && r[k].Value() == GroupEdit(groups[k - |inserts|], socketBinding)
    {
      var edit := new Insert.OfContent(Some(GroupSelect(groups[i])), Some(socketBinding));
      var named := edit.WithAttribute(Some("name"));
      r := r + [named];
      i := i + 1;
    }
  }

  /** The objects of edits from index `from` on hold the values vals, in order. */
  ghost predicate NewEdits(edits: seq<Insert>, from: nat, vals: seq<InsertValue>)
    reads set k | from <= k < |edits| :: edits[k]
  {
    && |edits| == from + |vals|
    && forall k :: from <= k < |edits| ==> edits[k].Value() == vals[k - from]
  }

  lemma NewEditsAppend(a: seq<Insert>, b: seq<Insert>, from: nat, va: seq<InsertValue>, vb: seq<InsertValue>)
    requires from <= |a| <= |b| && b[..|a|] == a
    requires NewEdits(a, from, va) && NewEdits(b, |a|, vb)
    ensures NewEdits(b, from, va + vb)
  {
    forall k | from <= k < |b| ensures b[k].Value() == (va + vb)[k - from] {
      if k < |a| { assert b[k] == a[k]; }
    }
  }

  /** The two add calls for the extension and the subsystem. */
  method AppendFixedEdits(inserts: seq<Insert>, moduleId: JString, subsystem: Option<File>) returns (r: seq<Insert>)
    ensures NewEdits(r, |inserts|, ExtensionEdits(moduleId) + SubsystemEdits(subsystem)) && r[..|inserts|] == inserts
    ensures forall k :: |inserts| <= k < |r| ==> fresh(r[k])
  {
    r := inserts;
    if moduleId != None {
      var ext := new Insert.OfXml(Some(ExtensionsSelect), Some(ExtensionXml(moduleId.value)));
      r := r + [ext];
    }
    if subsystem != None {
      var sub := new Insert.OfContent(Some(ProfileSelect), subsystem);
      r := r + [sub];
    }
  }

  /** The socket-binding edits, appended only when both the groups and the file are set. */
  method AppendSocketBindingEdits(inserts: seq<Insert>, f: Fields) returns (r: seq<Insert>)
    ensures NewEdits(r, |inserts|, SocketBindingEdits(f)) && r[..|inserts|] == inserts
    ensures forall k :: |inserts| <= k < |r| ==> fresh(r[k])
  {
    r := inserts;
    if f.socketBindingGroups != None && f.socketBinding != None {
      r := AppendGroupEdits(inserts, f.socketBindingGroups.value, f.socketBinding.value);
    }
  }

  /** The edit list register builds from the caller's edits and the option values. */
  method BuildInserts(raw: seq<Insert>, f: Fields) returns (inserts: seq<Insert>)
    ensures NewEdits(inserts, |raw|, GeneratedEdits(f)) && inserts[..|raw|] == raw
    ensures forall k :: |raw| <= k < |inserts| ==> fresh(inserts[k])
  {
    var fixed := AppendFixedEdits(raw, f.moduleId, f.subsystem);
    inserts := AppendSocketBindingEdits(fixed, f);
    NewEditsAppend(fixed, inserts, |raw|, FixedEdits(f), SocketBindingEdits(f));
    assert inserts[..|raw|] == fixed[..|fixed|][..|raw|];
    forall k | |raw| <= k < |inserts| ensures fresh(inserts[k]) {
      if k < |fixed| { assert inserts[k] == inserts[..|fixed|][k]; }
    }
  }

  /**
   * register(options): the caller's edits, unchanged and in their order, then
   * new edit objects for GeneratedEdits; the engine reads the backup file,
   * writes serverConfig, and gets failNoMatch as it was set.
   */
  method Register(options: RegisterOptions) returns (call: BuilderCall)
    modifies options
    ensures var raw := if old(options.inserts).Some? then old(options.inserts).value else [];
      && options.State() == old(options.State()).(inserts := Some(raw))
      && NewEdits(call.inserts, |raw|, GeneratedEdits(old(options.State())))
      && call.inserts[..|raw|] == raw
      && forall k :: |raw| <= k < |call.inserts| ==> fresh(call.inserts[k])
    ensures call.source == options.GetServerConfigBackup() && call.target == options.GetServerConfig()
    ensures call.failNoMatch == options.IsFailNoMatch()
  {
    var raw := options.GetInserts();
    var inserts := BuildInserts(raw, options.State());
    call := BuilderCall(options.GetServerConfigBackup(), options.GetServerConfig(), inserts, options.IsFailNoMatch());
  }
}
