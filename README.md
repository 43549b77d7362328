# wildfly-extension-maven-plugin, modelled in Dafny

The plugin installs a JBoss module into a WildFly or JBoss AS 7 distribution. It also registers the module in the server configuration file (standalone.xml or domain.xml). This project models the logic behind those two jobs and proves what the code promises about it:

- **Edit directives** (`WildflyInsert`). An `Insert` is one edit directive: a selector, the content to place under the selected nodes (an XML file or an XML string), and optionally the single attribute that identifies the content. The model covers its constructors, setters, `withAttribute` and the text of `toString`. That text is proved to read back into the fields whenever no field but the xml holds a blank.
- **Options builder** (`WildflyRegisterOptions`). This is the fluent options builder. Every setter assigns its own field and nothing else. `getInserts` and `getRemoves` replace a null array by an empty one and store it.
- **Namespace context** (`WildflyNamespaceContext`). This is the prefix-to-URI map used for XPath queries.
- **Edit-list assembly** (`WildflyRegisterExtension`). `register` builds the edit list for the XML patch engine:
  - the caller's edits, unchanged and in their order;
  - then the extension edit;
  - then the subsystem edit;
  - then one socket-binding edit per group.

  The model also says what is handed to the engine.
- **The deploy goal** (`WildflyDeployMojo`). It covers:
  - how an artifact coordinate becomes the coordinate passed to the dependency plugin and the name of the file it writes;
  - how configured paths are resolved against `jbossHome`;
  - the skip switch;
  - the options that `execute` assembles and registers.
- **The XML patch engine's helpers** (`XmlConfigBuilder`, on the element tree of `XmlTree`). Three pure string functions:
  - the right-most `namespace-uri()='…'` value of a selector;
  - the namespace-prefixing of bare location steps (section 2 of XPath 1.0);
  - the identity selector of an element.
- **The engine's insert-or-replace** (`XmlUpsert`). Content that declares no namespace inherits the namespace of the node it is placed under. Content equivalent to an existing child replaces that child; other content is appended. The builder collects edits and applies them in order at build time.
- **The legacy XSLT registration** (`JbossRegisterOptions`, `JbossRegisterExtension`). It covers:
  - the XPath name predicate `[@name='a' or @name='b']` (section 2.4 of XPath 1.0);
  - the text of the XSLT 1.0 stylesheet;
  - the root-element tests;
  - the exceptions `register` raises before the transformation.

Java `null` is `None` of an `Option`. A string concatenated with `+` shows a null as `null` (`JavaLang.Text`). `java.io.File` is its path. `String.split`, `String.join` and `File(parent, child)` are modelled in `JavaLang` and `WildflyDeployMojo` with the Unix semantics.

The source of `XmlConfigBuilder` is not part of this model. Its helpers and the upsert are defined from the assertions in `XmlConfigBuilderTest.java` and the class comment of `Insert.java`. `element2Xpath` uses a given override prefix even for an element without a namespace (`/y:test`, XmlConfigBuilderTest.java:83).

## Model

| member | source | states |
|---|---|---|
| WildflyInsert.Insert.constructor | src/main/java/org/wildfly/plugins/Insert.java:49-51 | a fresh Insert has every field null |
| WildflyInsert.Insert.OfXml | src/main/java/org/wildfly/plugins/Insert.java:53-56 | sets select and xml; content and attribute stay null |
| WildflyInsert.Insert.OfContent | src/main/java/org/wildfly/plugins/Insert.java:58-61 | sets select and content; xml and attribute stay null |
| WildflyInsert.Insert.WithAttribute | src/main/java/org/wildfly/plugins/Insert.java:63-66 | sets only the attribute and returns the same object |
| WildflyInsert.Insert.SetAttribute | src/main/java/org/wildfly/plugins/Insert.java:68-74 | the getter returns what was set; the other three fields are unchanged |
| WildflyInsert.Insert.SetXml | src/main/java/org/wildfly/plugins/Insert.java:76-82 | the getter returns what was set; the other three fields are unchanged |
| WildflyInsert.Insert.SetSelect | src/main/java/org/wildfly/plugins/Insert.java:84-90 | the getter returns what was set; the other three fields are unchanged |
| WildflyInsert.Insert.SetContent | src/main/java/org/wildfly/plugins/Insert.java:92-98 | the getter returns what was set; the other three fields are unchanged |
| WildflyInsert.Render | src/main/java/org/wildfly/plugins/Insert.java:100-108 | the text of toString: `insert [select=`, the selector, each non-null optional field with its tag in the order content, attribute, xml, and `]`; ToString and ParseRender state what it promises |
| WildflyInsert.Insert.ToString | src/main/java/org/wildfly/plugins/Insert.java:100-108 | the text starts with `insert [select=` and the selector and ends with `]`; when no field but the xml holds a blank, parsing it gives back every field, so the optional parts stand in the fixed order content, attribute, xml |
| WildflyInsert.ParseRender | src/main/java/org/wildfly/plugins/Insert.java:101-108 | round trip: parsing the rendered text gives back the fields (a null selector reads back as "null") |
| WildflyInsert.BreakAtBlank | src/main/java/org/wildfly/plugins/Insert.java:103-106 | a value rendered before the next part ends at the first blank: the two pieces concatenate back to the input |
| WildflyRegisterOptions.RegisterOptions.constructor | src/main/java/org/wildfly/plugins/RegisterOptions.java:33-45 | a fresh builder has every reference null and failNoMatch false |
| WildflyRegisterOptions.RegisterOptions.FailNoMatch | src/main/java/org/wildfly/plugins/RegisterOptions.java:47-50 | assigns only failNoMatch and returns the builder |
| WildflyRegisterOptions.RegisterOptions.WithExtension | src/main/java/org/wildfly/plugins/RegisterOptions.java:52-55 | assigns only moduleId, returns the builder, and getModuleId gives the id back |
| WildflyRegisterOptions.RegisterOptions.ServerConfigBackup | src/main/java/org/wildfly/plugins/RegisterOptions.java:57-60 | assigns only serverConfigBackup and returns the builder |
| WildflyRegisterOptions.RegisterOptions.ServerConfig | src/main/java/org/wildfly/plugins/RegisterOptions.java:62-65 | assigns only serverConfig and returns the builder |
| WildflyRegisterOptions.RegisterOptions.Subsystem | src/main/java/org/wildfly/plugins/RegisterOptions.java:67-70 | assigns only subsystem and returns the builder |
| WildflyRegisterOptions.RegisterOptions.SocketBinding | src/main/java/org/wildfly/plugins/RegisterOptions.java:72-75 | assigns only socketBinding and returns the builder |
| WildflyRegisterOptions.RegisterOptions.SocketBindingGroups | src/main/java/org/wildfly/plugins/RegisterOptions.java:77-80 | assigns only socketBindingGroups and returns the builder |
| WildflyRegisterOptions.RegisterOptions.Inserts | src/main/java/org/wildfly/plugins/RegisterOptions.java:81-84 | assigns only inserts and returns the builder |
| WildflyRegisterOptions.RegisterOptions.GetInserts | src/main/java/org/wildfly/plugins/RegisterOptions.java:86-91 | a set array is returned with nothing changed; a null one becomes an empty array that is stored, so the field then holds what was returned |
| WildflyRegisterOptions.RegisterOptions.Removes | src/main/java/org/wildfly/plugins/RegisterOptions.java:93-96 | assigns only removes and returns the builder |
| WildflyRegisterOptions.RegisterOptions.GetRemoves | src/main/java/org/wildfly/plugins/RegisterOptions.java:98-103 | the same lazy, stored empty default as getInserts |
| WildflyRegisterOptions.RegisterOptions.GetServerConfig | src/main/java/org/wildfly/plugins/RegisterOptions.java:105-107 | reads serverConfig of the builder's state as it stands, null included; the setter of serverConfig is proved to give it back |
| WildflyRegisterOptions.RegisterOptions.GetSocketBinding | src/main/java/org/wildfly/plugins/RegisterOptions.java:109-111 | reads socketBinding of the builder's state as it stands, null included; the setter of socketBinding is proved to give it back |
| WildflyRegisterOptions.RegisterOptions.GetSubsystem | src/main/java/org/wildfly/plugins/RegisterOptions.java:113-115 | reads subsystem of the builder's state as it stands, null included; the setter of subsystem is proved to give it back |
| WildflyRegisterOptions.RegisterOptions.GetSocketBindingGroups | src/main/java/org/wildfly/plugins/RegisterOptions.java:117-119 | reads socketBindingGroups of the builder's state as it stands, null included; the setter of socketBindingGroups is proved to give it back |
| WildflyRegisterOptions.RegisterOptions.GetModuleId | src/main/java/org/wildfly/plugins/RegisterOptions.java:121-123 | reads moduleId of the builder's state as it stands, null included; the setter of moduleId is proved to give it back |
| WildflyRegisterOptions.RegisterOptions.GetServerConfigBackup | src/main/java/org/wildfly/plugins/RegisterOptions.java:125-127 | reads serverConfigBackup of the builder's state as it stands, null included; the setter of serverConfigBackup is proved to give it back |
| WildflyRegisterOptions.RegisterOptions.IsFailNoMatch | src/main/java/org/wildfly/plugins/RegisterOptions.java:129-131 | reads failNoMatch of the builder's state as it stands, null included; the setter of failNoMatch is proved to give it back |
| WildflyNamespaceContext.NamespaceContextImpl.constructor | src/main/java/org/wildfly/plugins/NamespaceContextImpl.java:11 | a fresh context maps no prefix: every lookup gives null |
| WildflyNamespaceContext.NamespaceContextImpl.Mapping | src/main/java/org/wildfly/plugins/NamespaceContextImpl.java:13-16 | returns the same context; afterwards the prefix resolves to the URI and every other prefix resolves as before |
| WildflyNamespaceContext.NamespaceContextImpl.GetNamespaceURI | src/main/java/org/wildfly/plugins/NamespaceContextImpl.java:18-20 | a mapped prefix gives its URI; an unmapped prefix gives null |
| WildflyNamespaceContext.NamespaceContextImpl.GetPrefix | src/main/java/org/wildfly/plugins/NamespaceContextImpl.java:22-24 | always null |
| WildflyNamespaceContext.NamespaceContextImpl.GetPrefixes | src/main/java/org/wildfly/plugins/NamespaceContextImpl.java:26-28 | always null |
| WildflyNamespaceContext.GetPutSame | src/main/java/org/wildfly/plugins/NamespaceContextImpl.java:13-19 | after a put, the lookup of that prefix gives the URI put |
| WildflyNamespaceContext.GetPutOther | src/main/java/org/wildfly/plugins/NamespaceContextImpl.java:14 | a put leaves the lookup of every other prefix unchanged |
| WildflyNamespaceContext.PutPut | src/main/java/org/wildfly/plugins/NamespaceContextImpl.java:14 | mapping a prefix again overwrites the earlier URI |
| WildflyRegisterExtension.GroupEdits | src/main/java/org/wildfly/plugins/RegisterExtension.java:57-60 | one edit per group, in group order, each under `/server/socket-binding-group[@name='g']` with the socket-binding file and attribute name |
| WildflyRegisterExtension.GeneratedEdits | src/main/java/org/wildfly/plugins/RegisterExtension.java:48-61 | the edits register adds, by definition: the extension edit when a module id is set, the subsystem edit when a subsystem is set, then the group edits when both the groups and the file are set; GeneratedCount, ExtensionThenSubsystem, GroupEditAt and IdentityOnlyForGroups state its shape |
| WildflyRegisterExtension.GeneratedCount | src/main/java/org/wildfly/plugins/RegisterExtension.java:48-61 | the number of edits register adds: one per non-null moduleId and subsystem, plus the number of groups when both the groups and the file are set |
| WildflyRegisterExtension.ExtensionThenSubsystem | src/main/java/org/wildfly/plugins/RegisterExtension.java:48-55 | the extension edit comes first when there is a module id, and the subsystem edit right after it |
| WildflyRegisterExtension.GroupEditAt | src/main/java/org/wildfly/plugins/RegisterExtension.java:56-60 | the j-th group gives the edit at position (extension?) + (subsystem?) + j |
| WildflyRegisterExtension.IdentityOnlyForGroups | src/main/java/org/wildfly/plugins/RegisterExtension.java:50-59 | only socket-binding edits carry an identity attribute, always `name`; without both the groups and the file no edit carries one |
| WildflyRegisterExtension.AppendGroupEdits | src/main/java/org/wildfly/plugins/RegisterExtension.java:57-60 | the for loop keeps the list it started from and appends one new edit object per group holding that group's edit |
| WildflyRegisterExtension.AppendFixedEdits | src/main/java/org/wildfly/plugins/RegisterExtension.java:48-55 | appends new objects for the extension edit and the subsystem edit, each only when its field is set |
| WildflyRegisterExtension.AppendSocketBindingEdits | src/main/java/org/wildfly/plugins/RegisterExtension.java:56-61 | appends the group edits only when both the groups and the socket-binding file are set |
| WildflyRegisterExtension.BuildInserts | src/main/java/org/wildfly/plugins/RegisterExtension.java:46-61 | the caller's edits, unchanged and in order, followed by new objects that hold exactly the generated edits |
| WildflyRegisterExtension.Register | src/main/java/org/wildfly/plugins/RegisterExtension.java:45-65 | the engine gets the caller's edits (null becomes empty and is stored) then the generated ones; it reads the backup, writes serverConfig, and gets failNoMatch unchanged |
| WildflyDeployMojo.ArtifactRequest | src/main/java/org/wildfly/plugins/DeployExtensionMojo.java:207-221 | fails exactly when the coordinate has no second colon-separated field |
| WildflyDeployMojo.ArtifactWithPackaging | src/main/java/org/wildfly/plugins/DeployExtensionMojo.java:213-216 | with more than three fields the coordinate is passed on unchanged and the file is artifactId.packaging |
| WildflyDeployMojo.DefaultPackagingCompletes | src/main/java/org/wildfly/plugins/DeployExtensionMojo.java:213-220 | groupId:artifactId:version names artifactId.zip and gets `:zip:module` appended; the completed coordinate, read again, names the same file and is passed on unchanged |
| WildflyDeployMojo.SplitFields | src/main/java/org/wildfly/plugins/DeployExtensionMojo.java:213 | String.split on ':' gives back colon-free fields joined by ':' when the last field is not empty |
| WildflyDeployMojo.ResolveArtifactModuleZip | src/main/java/org/wildfly/plugins/DeployExtensionMojo.java:201-237 | no artifact gives no file; otherwise it fails exactly when the coordinate has no artifactId field, and otherwise gives the coordinate ArtifactRequest completes and the file at the evaluated path `TmpOutputDir/<file name>` (null read as "null") |
| WildflyDeployMojo.ResolvePath | src/main/java/org/wildfly/plugins/DeployExtensionMojo.java:266-270 | an absolute path is used as given |
| WildflyDeployMojo.RelativeUnderHome | src/main/java/org/wildfly/plugins/DeployExtensionMojo.java:268-269 | a relative path lands under jbossHome, separated by one slash |
| WildflyDeployMojo.EmptyIsHome | src/main/java/org/wildfly/plugins/DeployExtensionMojo.java:289-297 | the empty modulesHome resolves to jbossHome itself |
| WildflyDeployMojo.ModulesHomeOrEmpty | src/main/java/org/wildfly/plugins/DeployExtensionMojo.java:289-291 | a null modulesHome is treated as the empty path; a set one is kept |
| WildflyDeployMojo.DeployExtensionMojo.constructor | src/main/java/org/wildfly/plugins/DeployExtensionMojo.java:55-139 | the parameter defaults: modules/system/layers/base, standalone/configuration/standalone.xml and .xml.old, the standard-sockets group, skipDeploy and failNoMatch false |
| WildflyDeployMojo.DeployExtensionMojo.ValidConfiguration | src/main/java/org/wildfly/plugins/DeployExtensionMojo.java:258-297 | each absolute path is serverConfig, serverConfigBackup or modulesHome (null made empty), resolved against jbossHome unless absolute; nothing else changes |
| WildflyDeployMojo.DeployExtensionMojo.AssembleOptions | src/main/java/org/wildfly/plugins/DeployExtensionMojo.java:184-191 | a new options object holding the resolved paths and the configured content; the module id only when a module was read |
| WildflyDeployMojo.DeployExtensionMojo.Execute | src/main/java/org/wildfly/plugins/DeployExtensionMojo.java:157-199 | skipDeploy returns with nothing changed; otherwise every configured parameter keeps its value (modulesHome null becomes ""), the paths are resolved, an artifact overrides moduleZip (a coordinate without artifactId fails and leaves moduleZip alone), and the registration gets the assembled options |
| JavaLang.JavaSplit | src/main/java/org/wildfly/plugins/DeployExtensionMojo.java:213 | String.split: the pieces between separators, with trailing empty pieces removed |
| JbossRegisterOptions.RegisterOptions.constructor | src/main/java/org/jboss/plugins/RegisterOptions.java:33-41 | a fresh builder has every field null |
| JbossRegisterOptions.RegisterOptions.ServerConfig | src/main/java/org/jboss/plugins/RegisterOptions.java:43-46 | assigns only serverConfig, returns the builder, and the getter gives it back |
| JbossRegisterOptions.RegisterOptions.Subsystem | src/main/java/org/jboss/plugins/RegisterOptions.java:48-51 | assigns only subsystem, returns the builder, and the getter gives it back |
| JbossRegisterOptions.RegisterOptions.SocketBinding | src/main/java/org/jboss/plugins/RegisterOptions.java:53-56 | assigns only socketBinding, returns the builder, and the getter gives it back |
| JbossRegisterOptions.RegisterOptions.Profiles | src/main/java/org/jboss/plugins/RegisterOptions.java:58-61 | assigns only profiles (null clears them), returns the builder, and the getter gives it back |
| JbossRegisterOptions.RegisterOptions.SocketBindingGroups | src/main/java/org/jboss/plugins/RegisterOptions.java:63-66 | assigns only socketBindingGroups, returns the builder, and the getter gives it back |
| JbossRegisterOptions.RegisterOptions.GetProfiles | src/main/java/org/jboss/plugins/RegisterOptions.java:68-70 | reads profiles of the builder's state as it stands, null included; the setter of profiles is proved to give it back |
| JbossRegisterOptions.RegisterOptions.GetServerConfig | src/main/java/org/jboss/plugins/RegisterOptions.java:72-74 | reads serverConfig of the builder's state as it stands, null included; the setter of serverConfig is proved to give it back |
| JbossRegisterOptions.RegisterOptions.GetSocketBinding | src/main/java/org/jboss/plugins/RegisterOptions.java:76-78 | reads socketBinding of the builder's state as it stands, null included; the setter of socketBinding is proved to give it back |
| JbossRegisterOptions.RegisterOptions.GetSubsystem | src/main/java/org/jboss/plugins/RegisterOptions.java:80-82 | reads subsystem of the builder's state as it stands, null included; the setter of subsystem is proved to give it back |
| JbossRegisterOptions.RegisterOptions.GetSocketBindingGroups | src/main/java/org/jboss/plugins/RegisterOptions.java:83-85 | reads socketBindingGroups of the builder's state as it stands, null included; the setter of socketBindingGroups is proved to give it back |
| JbossRegisterExtension.GetNameSpace | src/main/java/org/jboss/plugins/RegisterExtension.java:199-204 | null exactly for no document; "" when the root declares no xmlns; otherwise the value of the root's xmlns attribute |
| JbossRegisterExtension.IsStandaloneXml | src/main/java/org/jboss/plugins/RegisterExtension.java:190-192 | a configuration is standalone exactly when its root element is named server; StandaloneSelectsAllProfiles states what that changes in register |
| JbossRegisterExtension.NameSelector | src/main/java/org/jboss/plugins/RegisterExtension.java:177-188 | the name predicate, by definition: "" for a null or empty array, otherwise the name tests joined by " or " in brackets; CreateXPathNameAttributeSelector is proved to compute it |
| JbossRegisterExtension.CreateXPathNameAttributeSelector | src/main/java/org/jboss/plugins/RegisterExtension.java:177-188 | the loop followed by the delete gives the name tests joined by " or " in brackets, and "" for a null or empty array |
| JbossRegisterExtension.SuffixedJoin | src/main/java/org/jboss/plugins/RegisterExtension.java:182-184 | appending every test followed by " or " gives the join plus one trailing " or " |
| JbossRegisterExtension.CutLastOr | src/main/java/org/jboss/plugins/RegisterExtension.java:185 | deleting the last four characters removes exactly the trailing " or " |
| JbossRegisterExtension.NameSelectorEmpty | src/main/java/org/jboss/plugins/RegisterExtension.java:178-180 | a null array and an empty array both give "" |
| JbossRegisterExtension.NameSelectorSingle | src/main/java/org/jboss/plugins/RegisterExtension.java:181-187 | one name gives `[@name='n']`, with no trailing " or " |
| JbossRegisterExtension.NameSelectorSnoc | src/main/java/org/jboss/plugins/RegisterExtension.java:181-187 | one more name adds " or " and its test before the closing bracket |
| JbossRegisterExtension.AppendHeader | src/main/java/org/jboss/plugins/RegisterExtension.java:123-138 | the declaration, the opening tag with namespace s, sub only with a subsystem document, and the excluded prefixes; subns is the subsystem's namespace or "" |
| JbossRegisterExtension.CreateStylesheet | src/main/java/org/jboss/plugins/RegisterExtension.java:121-175 | the appended text is the rendering of the section list: header, extension part, the subsystem and socket-binding parts when their documents are given, identity template, closing tag |
| JbossRegisterExtension.SectionsLayout | src/main/java/org/jboss/plugins/RegisterExtension.java:128-172 | the positions of the sections: a header of three or four sections, then the two extension sections, and the identity template and closing tag last |
| JbossRegisterExtension.StylesheetFrame | src/main/java/org/jboss/plugins/RegisterExtension.java:128-172 | the stylesheet text opens with the XML declaration and ends with `</xsl:stylesheet>` |
| JbossRegisterExtension.ExcludedPrefixes | src/main/java/org/jboss/plugins/RegisterExtension.java:123-138 | exclude-result-prefixes is "s", or "s sub" exactly when a subsystem document is given |
| JbossRegisterExtension.SubsystemTemplatesIff | src/main/java/org/jboss/plugins/RegisterExtension.java:150-157 | the subsystem templates are present exactly when a subsystem document is given, and they use the profile selector and the subsystem's namespace |
| JbossRegisterExtension.SocketBindingTemplatesIff | src/main/java/org/jboss/plugins/RegisterExtension.java:160-168 | the socket-binding templates are present exactly when a socket-binding document is given, and they exclude its root's name attribute |
| JbossRegisterExtension.Register | src/main/java/org/jboss/plugins/RegisterExtension.java:62-111 | ends in RegisterOutcome of the option values it started with; the options are unchanged when serverConfig is null, and otherwise only the profiles change, cleared for a standalone configuration |
| JbossRegisterExtension.RegisterFailures | src/main/java/org/jboss/plugins/RegisterExtension.java:62-111 | IllegalArgument exactly for a null serverConfig; NullPointer exactly when serverConfig is set and the subsystem file, the socket-binding file or destFile is null; a transformation reads serverConfig and writes destFile |
| JbossRegisterExtension.StandaloneSelectsAllProfiles | src/main/java/org/jboss/plugins/RegisterExtension.java:73-76 | for a standalone configuration with both files and destFile set, register transforms with the stylesheet of no profile names, and every subsystem template in it carries the empty profile selector, so it matches every profile |
| XmlTree.GetAttribute | src/main/java/org/jboss/plugins/RegisterExtension.java:203 | Element.getAttribute: "" when the attribute is absent, otherwise the value of an attribute of that name |
| XmlConfigBuilder.LastIndexOf | src/test/java/org/jboss/plugins/XmlConfigBuilderTest.java:66-69 | the right-most occurrence of a string, or none exactly when it does not occur |
| XmlConfigBuilder.FindRecentNamespaceFromXpath | src/test/java/org/jboss/plugins/XmlConfigBuilderTest.java:66-69 | by definition the text from the right-most `namespace-uri()='` to the next quote, null without one; FindRecentSome, FindRecentNone and FindRecentLast state its result |
| XmlConfigBuilder.FindRecentSome | src/test/java/org/jboss/plugins/XmlConfigBuilderTest.java:66-69 | a found value is the text from the right-most marker to the next quote, with no quote inside |
| XmlConfigBuilder.FindRecentNone | src/test/java/org/jboss/plugins/XmlConfigBuilderTest.java:66-69 | a selector without the marker has no recent namespace |
| XmlConfigBuilder.FindRecentLast | src/test/java/org/jboss/plugins/XmlConfigBuilderTest.java:66-69 | the value u of `a + namespace-uri()='u' + ' + b` is found, whatever a is and however long u and b are, when no marker follows (u has no quote, and u, the quote and b hold no marker) |
| XmlConfigBuilder.QuoteEnds | src/test/java/org/jboss/plugins/XmlConfigBuilderTest.java:66-69 | after the right-most marker, the value runs to the first quote |
| XmlConfigBuilder.FindRecentDomainNamespace | src/test/java/org/jboss/plugins/XmlConfigBuilderTest.java:66-69 | a value longer than the marker: `/*[namespace-uri()='urn:jboss:domain:1.1']` gives urn:jboss:domain:1.1 |
| XmlConfigBuilder.FindRecentExampleOne | src/test/java/org/jboss/plugins/XmlConfigBuilderTest.java:67 | `/*[namespace-uri()='test']/test` gives test |
| XmlConfigBuilder.FindRecentExampleTwo | src/test/java/org/jboss/plugins/XmlConfigBuilderTest.java:68 | `/*[namespace-uri()='foo']/test/*[namespace-uri()='test']` gives test, the right-most value |
| XmlConfigBuilder.JoinSteps | src/test/java/org/jboss/plugins/XmlConfigBuilderTest.java:72-76 | splitting a selector into steps at the slashes outside brackets and joining them gives the selector back |
| XmlConfigBuilder.StepsJoin | src/test/java/org/jboss/plugins/XmlConfigBuilderTest.java:72-76 | the converse: steps that are free of top-level slashes and closed are split back out of their join |
| XmlConfigBuilder.NoBareUnchanged | src/test/java/org/jboss/plugins/XmlConfigBuilderTest.java:75 | a selector without bare steps (predicates, `*`, attributes, prefixed names) is passed through unchanged |
| XmlConfigBuilder.Xpath2NamespacedSteps | src/test/java/org/jboss/plugins/XmlConfigBuilderTest.java:72-76 | the steps of the result are the input's steps, each bare one prefixed |
| XmlConfigBuilder.Xpath2NamespacedIdempotent | src/test/java/org/jboss/plugins/XmlConfigBuilderTest.java:72-76 | prefixing twice gives what prefixing once gives |
| XmlConfigBuilder.QualifyStepTwice | src/test/java/org/jboss/plugins/XmlConfigBuilderTest.java:74-75 | a bare step with the prefix added is no longer bare |
| XmlConfigBuilder.TwoBareSteps | src/test/java/org/jboss/plugins/XmlConfigBuilderTest.java:74 | two bare names separated by a slash both get the prefix |
| XmlConfigBuilder.RootedSteps | src/test/java/org/jboss/plugins/XmlConfigBuilderTest.java:75 | a rooted selector of a named step and a `*` step, both with predicates: only the named step gets the prefix |
| XmlConfigBuilder.Xpath2Namespaced | src/test/java/org/jboss/plugins/XmlConfigBuilderTest.java:72-76 | by definition the selector's steps, each bare one prefixed, joined again by slashes; Xpath2NamespacedSteps, Xpath2NamespacedIdempotent and NoBareUnchanged state its result |
| XmlConfigBuilder.Xpath2NamespacedEmpty | src/test/java/org/jboss/plugins/XmlConfigBuilderTest.java:73 | the empty selector stays empty |
| XmlConfigBuilder.Xpath2NamespacedExampleTwo | src/test/java/org/jboss/plugins/XmlConfigBuilderTest.java:74 | `test/test1` with x gives `x:test/x:test1` |
| XmlConfigBuilder.Xpath2NamespacedExampleThree | src/test/java/org/jboss/plugins/XmlConfigBuilderTest.java:75 | `/test[@a='x']/*[@b='y']` with x gives `/x:test[@a='x']/*[@b='y']` |
| XmlConfigBuilder.IdentityAttributes | src/test/java/org/jboss/plugins/XmlConfigBuilderTest.java:87-89 | an attribute is kept exactly when it is one of the element's and not a namespace declaration |
| XmlConfigBuilder.IdentityAttributesAppend | src/test/java/org/jboss/plugins/XmlConfigBuilderTest.java:87-89 | the identity attributes keep document order |
| XmlConfigBuilder.IdentityAttributesTwice | src/test/java/org/jboss/plugins/XmlConfigBuilderTest.java:87-89 | filtering twice filters nothing more |
| XmlConfigBuilder.StepPrefixChoice | src/test/java/org/jboss/plugins/XmlConfigBuilderTest.java:80-85 | the step has a prefix exactly when an override is given or the element has a namespace; the override wins; otherwise the default prefix |
| XmlConfigBuilder.DeclarationsIgnored | src/test/java/org/jboss/plugins/XmlConfigBuilderTest.java:88-89 | namespace declarations do not change the selector |
| XmlConfigBuilder.TwoAttributeTests | src/test/java/org/jboss/plugins/XmlConfigBuilderTest.java:87-89 | two attributes around namespace declarations give `[@a1='v1' and @a2='v2']` |
| XmlConfigBuilder.QualifyElementSelector | src/test/java/org/jboss/plugins/XmlConfigBuilderTest.java:80-85 | prefixing the unqualified selector of an element without a namespace gives its selector with that prefix as override |
| XmlConfigBuilder.Element2Xpath | src/test/java/org/jboss/plugins/XmlConfigBuilderTest.java:80-89 | by definition `/`, the element's name with the chosen prefix, and the predicate of its identifying attributes; StepPrefixChoice, DeclarationsIgnored and the examples state its result |
| XmlConfigBuilder.Element2XpathExampleOne | src/test/java/org/jboss/plugins/XmlConfigBuilderTest.java:81 | `<test/>` without override gives `/test` |
| XmlConfigBuilder.Element2XpathExampleTwo | src/test/java/org/jboss/plugins/XmlConfigBuilderTest.java:83 | `<test/>` with override y gives `/y:test` |
| XmlConfigBuilder.Element2XpathExampleThree | src/test/java/org/jboss/plugins/XmlConfigBuilderTest.java:85 | `<test xmlns="foo"/>` gives `/x:test` |
| XmlConfigBuilder.Element2XpathExampleFour | src/test/java/org/jboss/plugins/XmlConfigBuilderTest.java:87 | two attributes give `/test[@attr1='val1' and @attr2='val2']` |
| XmlConfigBuilder.Element2XpathExampleFive | src/test/java/org/jboss/plugins/XmlConfigBuilderTest.java:89 | with the xmlns declaration between them, `/x:test[@attr1='val1' and @attr2='val2']` |
| XmlUpsert.Adopt | src/test/java/org/jboss/plugins/XmlConfigBuilderTest.java:104-113 | adoption keeps the name, the attributes and the number of children |
| XmlUpsert.AdoptNamespace | src/test/java/org/jboss/plugins/XmlConfigBuilderTest.java:126-135 | content without a namespace takes the context namespace; content with one keeps it |
| XmlUpsert.AdoptKeepsNamespacedChild | src/test/java/org/jboss/plugins/XmlConfigBuilderTest.java:104-113 | a nested element that declares its own namespace is kept unchanged |
| XmlUpsert.AdoptNothing | src/test/java/org/jboss/plugins/XmlConfigBuilderTest.java:94-101 | under a node without a namespace the content is inserted as it is |
| XmlUpsert.AdoptTwice | src/test/java/org/jboss/plugins/XmlConfigBuilderTest.java:126-135 | adopting adopted content changes nothing |
| XmlUpsert.SelfMatch | src/main/java/org/wildfly/plugins/Insert.java:33-37 | content that has the attribute its edit names is equivalent to itself |
| XmlUpsert.FirstMatch | src/test/java/org/jboss/plugins/XmlConfigBuilderTest.java:116-122 | the index of the first equivalent child, or the number of children when none is |
| XmlUpsert.CountMatches | src/test/java/org/jboss/plugins/XmlConfigBuilderTest.java:116-122 | zero exactly when no child is equivalent |
| XmlUpsert.Upsert | src/test/java/org/jboss/plugins/XmlConfigBuilderTest.java:94-122 | the context keeps its name, namespace and attributes; UpsertAppends, UpsertReplaces and UpsertPlaces state what happens to its children |
| XmlUpsert.UpsertAppends | src/test/java/org/jboss/plugins/XmlConfigBuilderTest.java:94-101 | without an equivalent child the adopted content is appended after the unchanged children |
| XmlUpsert.UpsertReplaces | src/test/java/org/jboss/plugins/XmlConfigBuilderTest.java:116-122 | the first equivalent child is replaced in place; every other child is kept; the outcome says whether the match was unique |
| XmlUpsert.AmbiguousMeansSeveral | src/main/java/org/wildfly/plugins/Insert.java:32-37 | an ambiguous outcome means at least two children matched the identity selector; which of several the engine changes is listed under Left out |
| XmlUpsert.UpsertPlaces | src/test/java/org/jboss/plugins/XmlConfigBuilderTest.java:94-122 | the adopted content is a child afterwards, and the child count grows only on append |
| XmlUpsert.UpsertIdempotent | src/test/java/org/jboss/plugins/XmlConfigBuilderTest.java:115-122 | upserting the same self-identified content twice gives the document of upserting it once |
| XmlUpsert.ApplyAll | src/test/java/org/jboss/plugins/XmlConfigBuilderTest.java:95-97 | the edits, by definition, upserted one after the other at the root; ApplyAllAppend, ApplyAllKeepsRoot and ApplyAllTwice state its properties |
| XmlUpsert.ApplyAllKeepsRoot | src/test/java/org/jboss/plugins/XmlConfigBuilderTest.java:95-97 | applying edits leaves the root's name, namespace and attributes as they were |
| XmlUpsert.ApplyAllAppend | src/test/java/org/jboss/plugins/XmlConfigBuilderTest.java:95-97 | applying a + b is applying a, then b |
| XmlUpsert.OutcomeAt | src/test/java/org/jboss/plugins/XmlConfigBuilderTest.java:95-97 | the k-th outcome is that of the k-th edit on the document the first k edits left |
| XmlUpsert.ApplyAllRepeat | src/test/java/org/jboss/plugins/XmlConfigBuilderTest.java:115-122 | the same self-identified edit twice in a row acts as once |
| XmlUpsert.ApplyAllTwice | src/test/java/org/jboss/plugins/XmlConfigBuilderTest.java:115-122 | applying a list of self-identified edits whose contents match no other edit's twice gives the document of applying it once |
| XmlUpsert.ApplyAllTwiceCounterexample | src/test/java/org/jboss/plugins/XmlConfigBuilderTest.java:115-122 | without that condition it fails: [a with k="v", a] leaves [a] once and [a, a with k="v"] twice |
| XmlUpsert.ConfigBuilder.constructor | src/test/java/org/jboss/plugins/XmlConfigBuilderTest.java:95 | a builder starts from the loaded document with no edits |
| XmlUpsert.ConfigBuilder.Insert | src/test/java/org/jboss/plugins/XmlConfigBuilderTest.java:96 | collects one edit at the end and does not touch the document |
| XmlUpsert.ConfigBuilder.Build | src/test/java/org/jboss/plugins/XmlConfigBuilderTest.java:97 | the loop leaves the document every edit applied in order and reports each edit's outcome; the edits are kept |
| XmlUpsert.AppendCase | src/test/java/org/jboss/plugins/XmlConfigBuilderTest.java:94-101 | subsystem foobar is appended after foo, which is left with its one child |
| XmlUpsert.ReplaceCase | src/test/java/org/jboss/plugins/XmlConfigBuilderTest.java:115-122 | subsystem foo with two children replaces foo |
| XmlUpsert.InheritCase | src/test/java/org/jboss/plugins/XmlConfigBuilderTest.java:104-113 | content without a namespace takes the context's down to its plain children, and a nested child with its own namespace keeps it with its subtree |

## Left out

- XmlConfigBuilder is not part of this model. The model covers neither its selector evaluation nor its DOM handling. The modelled builder applies every edit at the root of the document, where the tests select `/server`. Which nodes a general selector picks, and `failNoMatch` on a selector that picks none, are not modelled.
- Removal edits (`getRemoves`) are modelled only as stored values. Their effect on the document depends on that engine.
- The resource files the engine tests load are not visible. The documented cases use small stand-in documents, not the tests' exact child counts.
- File-system checks and copies are I/O and are left out: `exists`, `isDirectory`, `canRead`, `canWrite` in `validConfiguration`, and the backup copy in `register`.
- Maven plumbing is left out: the `executeMojo` call of the dependency plugin and parameter injection. Maven's expression evaluation is the parameter `evaluate` of `ResolveArtifactModuleZip` and `Execute`.
- JBossModule.java is not part of this model: reading the zip, parsing the module descriptor and installing the module. Reading the module id is the parameter `readModuleId` of `Execute`. Failures to read or install are not modelled.
- `WildflyDeployMojo.DeployExtensionMojo.Execute`: a failing jbossHome or file check raises an exception before the path choices are used. The model takes every check as passed.
- `WildflyDeployMojo.ResolvePath`: `java.io.File` normalisation (collapsing repeated slashes, dropping a trailing slash) is left out. Paths are taken as already normal. `isAbsolute` is the Unix test (a leading slash).
- `WildflyDeployMojo.DeployExtensionMojo`: serverConfig and serverConfigBackup are non-null strings. They have defaults, and the source dereferences them anyway.
- Parsing, XSLT execution and `doc2string` are foreign library calls and are left out. A document is its root element plus the text `doc2string` gives for it.
- Namespace-aware DOM parsing is not modelled. An element's namespace is an input of the tree.
- Logging is left out.
- The legacy goal `org/jboss/plugins/DeployExtensionMojo.java` and `JBossModule.registerExtension` are not modelled. They call `register` signatures that do not exist in the shown `RegisterExtension`, so they are stale wiring.
- `RegisterOptionsTest.java` exercises an `extend()` method that the shown `RegisterOptions` does not have. It is not modelled.
- `XmlConfigBuilder.FindRecentNamespaceFromXpath`: a marker whose quote is never closed gives no value.
- `XmlUpsert.Upsert`: with several equivalent children, only the first is replaced and the outcome is `Ambiguous`. How the engine treats several equivalent children cannot be seen.
- `XmlUpsert.ApplyAllTwice`: applying an edit list a second time is proved to change nothing only for self-identified edits whose contents match no other edit's. In general it does change the document: `ApplyAllTwiceCounterexample` gives two edits where content with fewer identifying attributes matches what a more specific edit placed.
- `WildflyRegisterOptions.RegisterOptions.GetInserts`: the edit array is a sequence of `Insert` references. A null element of `Insert[]` cannot be represented. The stored array is a value, so writes a caller makes into the returned array are not modelled.
