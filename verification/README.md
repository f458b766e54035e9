# Verified model of the Varnish Ingress controller

The controller turns the Ingresses of a cluster into one configuration for
every Varnish Service, gives the configuration a name, and brings every Varnish
instance of the Service to load it, to label it as the regular configuration,
and to say that it is ready. This project models that pipeline and proves what
it keeps, from the Ingresses down to the answer of an instance to a request.

| File | Module | What it models |
|---|---|---|
| StableSort.dfy | Orders, StableSort | byte-wise string order; stable sorting, its normal form, sorting an array in place |
| VclSpec.dfy | Prelude, VclSpec | the specification of a configuration, as values |
| CanonicalForm.dfy, CanonicalOrder.dfy | CanonicalForm, CanonicalOrder | the canonical form, when two specifications have the same one, and how its lists are ordered |
| CanonicalInPlace.dfy | CanonicalInPlace | `Canonical` as it is: copied outer lists, inner lists that are shared and sorted in place |
| DeepHash.dfy | DeepHash | the byte stream that is hashed, and names of configurations |
| Streams.dfy, StreamChanges.dfy, StreamOrder.dfy | Streams, StreamChanges, StreamOrder | what the stream shows of a specification, and in which order |
| Mangle.dfy | Mangle | names of VCL objects |
| Literals.dfy | Literals | string literals and names in the text of a VCL program |
| Dispositions.dfy | Resource, Dispositions | request dispositions: validation, translation, rendering, and what the rendered conditions mean |
| Resolution.dfy | Resolution | which Service an Ingress belongs to, and which Ingresses a Service has |
| Backends.dfy | Backends | addresses, probes and settings of backends; the nodes for self-sharding |
| Merge.dfy, MergeContents.dfy, MergeOrder.dfy | Merge, MergeContents, MergeOrder | merging the Ingresses of a Service, what the result holds, and independence of the order |
| Varnishd.dfy | Varnishd | a Varnish instance: loaded configurations, labels, routing |
| Protocol.dfy | Protocol | any number of sessions with one instance, interleaved, with failures and restarts |
| Instances.dfy | Instances | what the controller does at one instance: update, label, check |
| Services.dfy | Services | the state of the controller as a value, its operations as relations, and runs |
| Controller.dfy | Controller | the controller as an object, each method proved against the relations |

Strings are sequences of bytes, one char for each. SHA-512/224 (section 6.6 of
FIPS 180-4), FNV-1a, regular expressions and the folding of letter case are
arbitrary functions. Listers and maps yield what they hold in any order.
Commands to an instance can fail, and a command whose connection is closed or
times out may or may not have been carried out. Three rules of Varnish are
assumed: a label points at a loaded configuration, a configuration that is
labelled or active is not discarded, and a restart goes back to the start
script. In a VCL condition, a negation applies to the whole comparison behind it.
A string literal in double quotes goes up to the next double quote, without
escapes, and has no line break in it. A header that is not there equals nothing,
matches nothing and has no prefix. Whether a kind of matcher takes a string that
was added to it already, or fails, is left open.

## What the code does not keep

Each of these is a lemma below, with the exact condition where there is one.

* Values and reasons are written between quotes as they are. One with a quote or
  a line break in it does not come back, and can be a test of its own
  (`Literals.ReadsBack`, `Literals.BreaksOut`, `Dispositions.ValueBecomesCode`,
  `Dispositions.ActionKept`).
* A plain `not-equal` in a request disposition, with one value or a count, is
  negated twice when rendered and means the opposite; a plain `equal` with one
  value ignores `case-sensitive: false`; existence is promised only of headers,
  and that of a counter is a test whether it is zero
  (`Dispositions.RenderedMeaning`). A value that is there twice passes validation
  although the matcher may not take it (`Dispositions.ValueTwice`). Together with
  the quotes, these are all of the accepted conditions that do not mean what is
  documented (`Dispositions.FaithfulExactly`).
* After `Update` and `SetNotReady`, `HasConfig` dereferences a nil pointer
  (`Services.NotReadyAsksForNil`, `Services.UpdatedThenNotReady`, `Services.NilRun`).
* Turning a whitelist into a blacklist changes neither the stream nor the name,
  so that instances go on using the old configuration
  (`DeepHash.WhitelistNotInName`, `Services.WhitelistChangeLoadsNothing`).
* `getIngsForVarnishSvc` counts Services in the namespace of the worker instead of
  the Service's, so that an update for an Ingress elsewhere can lose or gain
  Ingresses (`Resolution.OtherWorker`, `Resolution.LostIngress`,
  `Resolution.GainedIngress`).
* The initial number of probes is taken from the window
  (`Backends.ProbeInitialExactly`), and without a window the merge of accepted
  Ingresses panics (`MergeOrder.MergePanicsExactly`,
  `MergeOrder.AcceptedButPanics`).
* `AllServices` is keyed without the port, so that a Service named with two ports
  can make the configuration depend on the order of the Ingresses
  (`MergeOrder.OrderMattersExactly`); and if two BackendConfigs with different
  settings name a Service, it depends on the order in which they are listed
  (`Backends.ConfigOrderExactly`).
* A label that could not be set is reported only if the connection was closed, so
  that a Service can be set to not ready without error while an instance is
  ready (`Services.NotReadyUnnoticed`).
* A Service that is deleted without error stays and says that its configuration
  is loaded (`Services.DeletedWithoutError`, `Services.DeletedUntruthful`); new
  instances added without loading are said to have the configuration
  (`Services.WithoutLoading`); and after a restart of an instance, its Service goes
  on saying so until it is looked after (`Services.RestartLosesTruth`).
* The number of instances that is kept counts removals that failed, and
  addresses that were there twice for a new Service (`Services.GaugeInEveryRun`,
  `Services.NewServiceCount`).
* A Secret whose length changes is stored wrongly (`Controller.SecretStoredExactly`).

## Model

| member | source | states |
|---|---|---|
| StableSort.SortNormalForm | pkg/varnish/vcl/spec.go:842-849 | two lists have the same stably sorted list exactly if for every key they have the same elements in the same order |
| StableSort.SortIsStable | pkg/varnish/vcl/spec.go:842-849 | sorting keeps the order of the elements with equal keys |
| StableSort.Stable | pkg/varnish/vcl/spec.go:842-849 | sorting an array in place leaves what the specification of stable sorting says of the old contents |
| CanonicalForm.IPPortLessOrders | pkg/varnish/vcl/spec.go:66-71 | the order by IP or port is a strict weak order on a list exactly if no smaller IP goes with a larger port, which one port guarantees |
| CanonicalForm.MixedPortsHaveNoNormalForm | pkg/varnish/vcl/spec.go:66-71 | two addresses that are each less than the other end up in an order that depends on the one they came in |
| CanonicalForm.CanonNormalForm | pkg/varnish/vcl/spec.go:829-878 | two specifications have the same canonical form exactly if they are equivalent, where equivalence is stated without sorting |
| CanonicalForm.DistinctKeysReordered | pkg/varnish/vcl/spec.go:829-878 | with distinct keys, equivalence of two lists is reordering up to equivalence of the elements |
| CanonicalForm.CanonIdempotent | pkg/varnish/vcl/spec.go:829-878 | canonical form of a canonical form, or of a specification whose inner lists were sorted before, is the same one |
| CanonicalForm.StillConcordant | pkg/varnish/vcl/spec.go:829-878 | sorting leaves a specification one that can be sorted |
| Orders.StrLessExactly | pkg/varnish/vcl/spec.go:66-71 | a string is less than another exactly if the first byte that differs is, or if it is a proper prefix |
| CanonicalOrder.RulesAscend | pkg/varnish/vcl/spec.go:843-844 | the rules of a canonical form ascend by host |
| CanonicalOrder.NodesAscend | pkg/varnish/vcl/spec.go:854-854 | the nodes of a canonical form ascend by name |
| CanonicalOrder.AuthsAscend | pkg/varnish/vcl/spec.go:858-859 | the realms of a canonical form ascend by name |
| CanonicalOrder.ACLsAscend | pkg/varnish/vcl/spec.go:863-864 | the ACLs of a canonical form ascend by name |
| CanonicalOrder.RewritesAscend | pkg/varnish/vcl/spec.go:869-870 | the rewrites of a canonical form ascend by VCL subroutine |
| CanonicalOrder.CredentialsAscend | pkg/varnish/vcl/spec.go:860-862 | the credentials of each realm of a canonical form ascend |
| CanonicalOrder.ACLAddressesAscend | pkg/varnish/vcl/spec.go:865-866 | the addresses of each ACL of a canonical form ascend |
| CanonicalOrder.ACLConditionsAscend | pkg/varnish/vcl/spec.go:865-867 | the conditions of each ACL of a canonical form ascend by comparand |
| CanonicalOrder.ValuesAscend | pkg/varnish/vcl/spec.go:871-876 | the values of each condition of a disposition of a canonical form ascend |
| CanonicalOrder.ServicesAscend | pkg/varnish/vcl/spec.go:845-857 | the addresses of each Service of a canonical form ascend by IP and then by port, wherever they can be sorted |
| CanonicalOrder.RulesInAnyOrder | pkg/varnish/vcl/spec.go:843-844 | any order of rules with different hosts gives the same canonical form |
| CanonicalOrder.NodesInAnyOrder | pkg/varnish/vcl/spec.go:854-854 | any order of nodes with different names gives the same canonical form |
| CanonicalOrder.AuthsInAnyOrder | pkg/varnish/vcl/spec.go:858-859 | any order of different realms gives the same canonical form |
| CanonicalOrder.ACLsInAnyOrder | pkg/varnish/vcl/spec.go:863-864 | any order of ACLs with different names gives the same canonical form |
| CanonicalOrder.ACLAddressesInAnyOrder | pkg/varnish/vcl/spec.go:865-866 | any order of different addresses of an ACL gives the same canonical form |
| CanonicalOrder.ACLConditionsInAnyOrder | pkg/varnish/vcl/spec.go:865-867 | any order of conditions of an ACL with different comparands gives the same canonical form |
| CanonicalOrder.RewritesExactly | pkg/varnish/vcl/spec.go:869-870 | two lists of rewrites give the same canonical form exactly if for each VCL subroutine they have the same rewrites in the same order |
| CanonicalOrder.RewritesExchanged | pkg/varnish/vcl/spec.go:869-870 | two different rewrites next to each other can be exchanged exactly if they are for different subroutines |
| CanonicalInPlace.Canonical | pkg/varnish/vcl/spec.go:829-878 | the result stands for the canonical form of what the receiver stood for; outer lists of the receiver are as before, and of the shared inner lists exactly those that are reached are sorted |
| CanonicalInPlace.SortedHeapView | pkg/varnish/vcl/spec.go:841-876 | after sorting shared lists in place, the receiver stands for what it stood for with its nested lists sorted, although maps alias the same lists |
| CanonicalInPlace.SecondCall | pkg/varnish/vcl/spec.go:829-878 | what the receiver and the result stand for after a call can be sorted again, and a second call on either gives an equal result |
| CanonicalInPlace.SortMapAddrs | pkg/varnish/vcl/spec.go:844-852 | sorting the lists of a map in any order of its keys sorts each of the shared lists once and for all |
| DeepHash.KeysInOrder | pkg/varnish/vcl/spec.go:182-195 | the keys of a map come out the same in whatever order the map yields them |
| DeepHash.StreamIgnoresMapOrder | pkg/varnish/vcl/spec.go:182-195 | the bytes written for a map do not depend on the order of enumeration |
| DeepHash.DeepHash | pkg/varnish/vcl/spec.go:789-823 | the text is that of the digest of the stream of all parts in order |
| DeepHash.Base62Injective | pkg/varnish/vcl/spec.go:820-822 | different numbers have different base-62 texts |
| DeepHash.NumberInjective | pkg/varnish/vcl/spec.go:820-822 | different byte strings of one length, leading zeros included, are different numbers |
| DeepHash.ConfigNameOf | pkg/varnish/varnish.go:127-130 | the name is that of the digest of the canonical form |
| DeepHash.NamesFaithful | pkg/varnish/varnish.go:127-130 | names agree exactly if digests do, have the prefix, and are none of the fixed names on an instance |
| DeepHash.EquivalentSameName | pkg/varnish/varnish.go:127-130 | equivalent specifications have the same name |
| DeepHash.WhitelistNotInName | pkg/varnish/vcl/spec.go:405-418 | toggling a whitelist gives another canonical form with the same name, whatever the hash function is |
| DeepHash.UnmarkedSameName | pkg/varnish/vcl/spec.go:721-749 | specifications that differ only in whitelists, in reasons, and in the status of what is not synthetic have the same name |
| DeepHash.BoundariesNotInStream | pkg/varnish/vcl/spec.go:789-819 | the stream does not show where one string ends and the next one begins |
| Streams.BigEndianIsNumber | pkg/varnish/vcl/spec.go:39-43 | the bytes of a number are its digits to base 256, as many as asked for |
| Streams.FlagsExactly | pkg/varnish/vcl/spec.go:538-568 | the flags of a match show entirely, whichever are set |
| Streams.StreamExactly | pkg/varnish/vcl/spec.go:789-819 | specifications of the same shape have the same stream exactly if they are the same but for what is not written |
| Streams.NamesExactly | pkg/varnish/varnish.go:127-130 | so without a collision of digests, configurations of the same shape have the same name exactly if what is written of their canonical forms is the same |
| StreamChanges.AuthFlagShows | pkg/varnish/vcl/spec.go:267-280 | changing whether credentials are UTF-8 changes the stream |
| StreamChanges.NegationShows | pkg/varnish/vcl/spec.go:303-309 | negating an address of an ACL, or not any more, changes the stream |
| StreamChanges.RewriteFlagsShow | pkg/varnish/vcl/spec.go:642-660 | the stream changes exactly if the flags of a rewrite do |
| StreamChanges.ConditionFlagsShow | pkg/varnish/vcl/spec.go:721-741 | the stream changes exactly if the flags of a condition do |
| StreamChanges.AllAddressesShow | pkg/varnish/vcl/spec.go:54-59 | lists of addresses have the same stream exactly if they are the same, whatever their lengths are |
| StreamChanges.AddressesShow | pkg/varnish/vcl/spec.go:147-151 | the stream changes exactly if the addresses of a Service do |
| StreamChanges.PodsMove | pkg/varnish/varnish.go:127-130 | so without a collision of digests, the name changes exactly if the addresses of a Service do, but for their order |
| StreamOrder.ServiceInOrder | pkg/varnish/vcl/spec.go:147-166 | a Service is written name first, then all addresses, then its settings |
| StreamOrder.BackendInOrder | pkg/varnish/vcl/spec.go:152-166 | probe, director, host header, three timeouts, proxy header and number of connections are written in this order |
| StreamOrder.ProbeInOrder | pkg/varnish/vcl/spec.go:217-228 | a probe is written with its URL first, then the lines of its request, its response, and its other settings in the order of the source |
| StreamOrder.AuthInOrder | pkg/varnish/vcl/spec.go:267-280 | a realm is written with its name first, then its credentials, status, conditions and flag |
| StreamOrder.ACLInOrder | pkg/varnish/vcl/spec.go:405-419 | an ACL is written with its name first, then its comparand, status, addresses, conditions and header |
| StreamOrder.RewriteInOrder | pkg/varnish/vcl/spec.go:642-660 | a rewrite is written with its rules first, then its flags, target, source and codes |
| StreamOrder.DispositionInOrder | pkg/varnish/vcl/spec.go:721-749 | a disposition is written with its conditions first, then its action and status |
| StreamOrder.MapInOrder | pkg/varnish/vcl/spec.go:182-195 | the entries of a map are written in the order of their keys |
| StreamOrder.SpecInOrder | pkg/varnish/vcl/spec.go:789-819 | the parts of a specification are written in the order of the source |
| StreamOrder.Base62Reads | pkg/varnish/vcl/spec.go:820-822 | the text of the digest reads as its number to base 62, with 0-9, a-z and A-Z for digits |
| Mangle.ReplIllegal | pkg/varnish/vcl/template.go:211-218 | a run of illegal bytes becomes its hexadecimal digits between underscores |
| Mangle.ReplaceAllIllegal | pkg/varnish/vcl/template.go:275-275 | every maximal run of illegal bytes is replaced, and nothing else |
| Mangle.HashFits | pkg/varnish/vcl/template.go:263-266 | a 32-bit hash has at most six base-62 digits |
| Mangle.Bound | pkg/varnish/vcl/template.go:257-268 | overwriting the buffer gives the first bytes, an underscore, the hash, and what the hash leaves of the bytes behind it |
| Mangle.BoundWidth | pkg/varnish/vcl/template.go:257-268 | exactly l bytes of longer input, for l of at least 7, legal ones of legal input, and the first l - 7 bytes unchanged |
| Mangle.BoundCollisions | pkg/varnish/vcl/template.go:257-268 | two long strings get the same bounded name exactly if their first bytes and their stamps agree; with full-length hashes, exactly if the hashes agree |
| Mangle.Mangle | pkg/varnish/vcl/template.go:270-278 | the mangled name is the bounded replacement of the prefixed name, and the empty name stays empty |
| Mangle.MangledNamesAreSymbols | pkg/varnish/vcl/template.go:257-278 | every name that is not empty has the prefix, only legal characters, and at most 46 bytes |
| Mangle.UnmangleMangle | pkg/varnish/vcl/template.go:211-278 | on short names without underscore, mangling has a left inverse |
| Mangle.MangledNamesDiffer | pkg/varnish/vcl/template.go:284-286 | so two of them, with the same legal ending, have the same mangled name exactly if they are equal |
| Mangle.BackendNamesDiffer | pkg/varnish/vcl/template.go:280-282 | names of backends agree exactly if Service and IPv4 address do |
| Mangle.BackendNameIs | pkg/varnish/vcl/template.go:280-282 | the name of a backend of legal characters is prefix, Service and address with underscores |
| Mangle.UrlMatcherIs | pkg/varnish/vcl/template.go:288-290 | the name of a matcher of legal characters is prefix, host with underscores, and ending |
| Mangle.HostMatchersDiffer | pkg/varnish/vcl/template.go:288-290 | matchers of two hosts, wildcards or not, have the same name exactly if the hosts are the same but for dots and underscores |
| Mangle.HostMatchersOfTheirOwn | pkg/varnish/vcl/template.go:288-290 | so hosts without underscore have matchers of their own |
| Mangle.UnderscoreCollides | pkg/varnish/vcl/template.go:211-218 | a name with underscores can collide with one that has illegal bytes |
| Literals.ReadsBack | pkg/varnish/vcl/recv_disposition.tmpl:10-12 | a string between quotes reads back, whatever follows, exactly if it has neither a quote nor a line break |
| Literals.ReadsWhole | pkg/varnish/vcl/template.go:560-565 | standing alone between quotes, a string is read as itself or is no literal at all |
| Literals.BreaksOut | pkg/varnish/vcl/template.go:560-565 | what follows the first quote in a value is left as program text |
| Literals.ReadsAll | pkg/varnish/vcl/recv_disposition.tmpl:10-12 | the strings of a matcher are read as they are meant exactly if all of them are clean |
| Dispositions.ValidateCondition | pkg/controller/varnishconfig.go:173-229 | exactly the acceptable conditions pass, and an error names the comparand and is of the kind that is due |
| Dispositions.ValidateReqDisps | pkg/controller/varnishconfig.go:165-233 | no error exactly if everything is acceptable, else an error about the first disposition and the first condition in it that is not |
| Dispositions.ConfigReqDisps | pkg/controller/ingress.go:773-820 | dereferences a nil status exactly if a synthetic disposition has none; else every disposition is translated, and nothing else changes |
| Dispositions.MatchFlagsExactly | pkg/controller/ingress.go:618-647 | every flag comes from the field of its name; letter case matters unless it is said not to, also without flags |
| Dispositions.ValidatedRenders | pkg/varnish/vcl/template.go:327-398 | an accepted condition is rendered as exactly one of existence, a matcher with values and valid operations, or a valid relation with a defined value |
| Dispositions.FlagsReadBack | pkg/varnish/vcl/template.go:400-443 | the options of a matcher show all flags that matter for matching |
| Dispositions.SettingsAreDistinct | pkg/varnish/vcl/template.go:400-443 | no two options have the same text |
| Dispositions.RenderedMeaning | pkg/varnish/vcl/recv_disposition.tmpl:24-35 | what the text of an accepted condition means: nothing if a value or the comparand cannot be read or a matcher does not take the values; else the documented meaning, but for plain inequalities, which lose their negation, plain equalities, which lose their flags, and existence of a counter, which is a test for zero |
| Dispositions.FaithfulExactly | pkg/varnish/vcl/recv_disposition.tmpl:24-35 | the text of a condition means what is documented, of all requests, exactly if all values and the comparand can be read, no value is there twice for a matcher that does not take it twice, existence is that of a header, and it is no plain inequality, and no plain equality without regard to case whose value has a case variant |
| Dispositions.ValueBecomesCode | pkg/varnish/vcl/template.go:560-565 | a value that passes validation and the schema, ends its own literal, and adds a comparison |
| Dispositions.ValueTwice | pkg/varnish/vcl/recv_disposition.tmpl:9-12 | a condition with a value twice that passes validation and the schema, and means what is documented exactly if the matcher takes it twice |
| Dispositions.ActionKept | pkg/varnish/vcl/recv_disposition.tmpl:37-44 | the rendered action is the promised one exactly if a reason that is written can be read back |
| Dispositions.PromisesKept | pkg/varnish/vcl/recv_disposition.tmpl:21-48 | validated dispositions whose conditions are rendered faithfully and whose reasons can be read back are VCL, and do with every request what the first one that applies promises |
| Resolution.SplitKeyExactly | pkg/controller/ingress.go:70-74 | a key is a name, or a namespace and a name around the only slash |
| Resolution.GetVarnishSvcForIng | pkg/controller/ingress.go:60-104 | an error exactly for a malformed annotation; else the result is the one Service that implements the Ingress, in whatever order the listers answer |
| Resolution.GetIngsForVarnishSvc | pkg/controller/ingress.go:106-151 | an error exactly if any Ingress of the class has a malformed annotation; else exactly those with the annotation of the class and the Service as theirs, at increasing places of the list |
| Resolution.SelectedExactly | pkg/controller/ingress.go:122-150 | an Ingress is in the result exactly if it is listed, has the annotation with the class, and names the Service, or names none and the numbers of Services select it |
| Resolution.ImplementsExactly | pkg/controller/ingress.go:60-104 | the Service of an Ingress is the one whose key its annotation has, or else the only one in the cluster or in the namespace |
| Resolution.InversePair | pkg/controller/ingress.go:60-151 | the two functions are inverse to each other, asked from the namespace of the Ingress and from that of the Service |
| Resolution.Partition | pkg/controller/ingress.go:60-151 | the Ingresses of different Services are disjoint, and together they are all that have a Service |
| Resolution.OtherWorker | pkg/controller/ingress.go:117-146 | the worker of another namespace answers differently exactly for unannotated Ingresses in the namespace of the Service, if just one of the two namespaces has just one Service and the cluster has more |
| Resolution.LostIngress | pkg/controller/ingress.go:822-839 | an update for an annotated Ingress elsewhere loses one that has the Service as the only one in its namespace |
| Resolution.GainedIngress | pkg/controller/ingress.go:822-839 | and it can gain one that has no Service |
| Backends.EndpsTargetPort2Addrs | pkg/controller/utils.go:80-102 | one address for each that is ready in the first subset with the port, in order; an error if there is no such subset |
| Backends.TargetAddressesOnePort | pkg/controller/utils.go:80-102 | an error exactly if no subset has the port, and otherwise every address has it |
| Backends.TargetAddressesExactly | pkg/controller/utils.go:86-95 | the addresses are those of the first subset that has the port, one for one, with the port |
| Backends.IngBackend2Addrs | pkg/controller/ingress.go:180-218 | the addresses for the target port of the first service port with the number or name |
| Backends.BackendAddressesExactly | pkg/controller/ingress.go:180-218 | the addresses are those of the first subset with the target port of the first service port with the number or name, and everything that can be missing gives its own error |
| Backends.ProbeInitialExactly | pkg/controller/ingress.go:220-246 | the initial number is what is asked for exactly if none is asked for or it is that of the window; a panic exactly if it is asked for and there is no window |
| Backends.ProbeFields | pkg/controller/ingress.go:220-246 | every other setting of a probe comes from the field of its name, numbers if they fit |
| Backends.ItoaInjective | pkg/controller/ingress.go:236-243 | different numbers have different texts |
| Backends.GetVCLSvc | pkg/controller/ingress.go:248-305 | the settings are those of the first BackendConfig that names the Service |
| Backends.FirstConfigExactly | pkg/controller/ingress.go:266-276 | what counts is the first BackendConfig with the name of the Service in its list |
| Backends.ConfiguredFields | pkg/controller/ingress.go:280-303 | every setting of a Service comes from the field of its name, numbers exactly if they fit |
| Backends.DirectorFields | pkg/controller/ingress.go:280-290 | and so does every setting of a director |
| Backends.SettingsOfService | pkg/controller/ingress.go:266-305 | a Service is its name, its addresses, and what the settings make of the list of BackendConfigs |
| Backends.ConfigOrderExactly | pkg/controller/ingress.go:266-276 | the order in which BackendConfigs are listed does not matter to a Service exactly if all that name it have the same settings |
| Backends.EntryExactly | pkg/controller/ingress.go:180-305 | a Service that is found has its namespaced name and addresses with one port, which can be sorted |
| Backends.ConfigSharding | pkg/controller/ingress.go:379-455 | the error, the panic, or the nodes of all Pods in order, each with its hostname or else its name and the http port, behind those that were there |
| Backends.HTTPPortExactly | pkg/controller/ingress.go:401-410 | the http port is that of the first endpoint port with the name and a number |
| Backends.HTTPPortOfSubsets | pkg/controller/ingress.go:401-410 | and of all subsets in order, the first one counts |
| Backends.TooFewExactly | pkg/controller/ingress.go:398-415 | how many addresses there are counts those that are not ready, in all subsets |
| Merge.IngMergeError | pkg/controller/ingress.go:153-178 | no error exactly if all hosts are distinct and at most one Ingress has a default backend; else two of the Ingresses are named, both with a default backend or both with the host that is there twice |
| Merge.AddPaths | pkg/controller/ingress.go:349-372 | the paths of a rule are all found, or the first that is not gives the error |
| Merge.AddIngress | pkg/controller/ingress.go:313-374 | one Ingress adds its rules and Services, or stops at its first failure |
| Merge.Ings2VCLSpec | pkg/controller/ingress.go:307-377 | success exactly if the Ingresses can be merged, with the merged result; else the failure of the first Ingress that cannot |
| MergeContents.MergeableExactly | pkg/controller/ingress.go:307-377 | Ingresses can be merged exactly if no two have a default backend, every rule has a host, and addresses and settings are found for all backends |
| MergeContents.MergedRoutes | pkg/controller/ingress.go:343-372 | every rule of every Ingress is at its place, with its host, and under every path string, and no other, the Service of the last path with that string, with the addresses and settings found for it |
| MergeContents.MergedTables | pkg/controller/ingress.go:338-371 | the tables have every Service mentioned under its name, as it was mentioned last, and the BackendConfigs that were used |
| MergeContents.MergedDefault | pkg/controller/ingress.go:322-338 | the default is the Service of the default backend, or none; nothing else is set |
| MergeOrder.StepPanicExactly | pkg/controller/ingress.go:220-246 | using a backend panics exactly if its addresses are found and the first BackendConfig of its Service has an initial number without a window |
| MergeOrder.PanicsExactly | pkg/controller/ingress.go:307-377 | a merge that fails does so with a panic exactly if some Ingress, with everything before it merged, is the second with a default backend or fails first over a window that is missing |
| MergeOrder.AcceptedPanicsExactly | pkg/controller/ingress.go:322-324 | accepted Ingresses never panic over a second default backend, and panic exactly if one of them, with everything before it merged, fails first over a window that is missing |
| MergeOrder.MergePanicsExactly | pkg/controller/ingress.go:307-377 | the result of a merge is a panic exactly if there is such an Ingress, for accepted Ingresses one with a window missing, and no other failure could have come out |
| MergeOrder.AcceptedButPanics | pkg/controller/ingress.go:234-243 | a cluster with a single accepted Ingress whose merge panics |
| MergeOrder.MergedContents | pkg/controller/ingress.go:307-377 | rules are those of all hosts in order; the table has exactly the Services mentioned, each under its name; the default is set exactly if one is named |
| MergeOrder.MergedConcordant | pkg/controller/ingress.go:307-377 | every list of addresses in the result can be sorted |
| MergeOrder.OrderDoesNotMatter | pkg/controller/ingress.go:307-377 | any order of accepted Ingresses that agree on their Services gives the same canonical form and the same name, whatever the rest of the configuration is |
| MergeOrder.OnePortAgrees | pkg/controller/ingress.go:367-368 | naming every Service with one port is enough for agreement |
| MergeOrder.OrderMattersExactly | pkg/controller/ingress.go:367-368 | all orders give the same canonical form exactly if the Ingresses agree on their Services |
| Varnishd.ReadyMeansServing | container/boot.vcl:5-13 | if the readiness check is answered with 200, all other traffic goes to a loaded configuration made from Ingresses |
| Protocol.NextKeepsInv | pkg/varnish/varnish.go:227-294 | no step of any session, restart or change of temperature breaks the invariant |
| Protocol.AlwaysSafe | pkg/varnish/varnish.go:227-294 | the invariant holds in every state of every run from the start script |
| Protocol.ReadinessIsNeverWrong | container/boot.vcl:5-13 | in every state of every run, an instance that says it is ready serves a configuration made from Ingresses |
| Protocol.OnlyColdGoesAway | pkg/varnish/monitor.go:141-161 | short of a restart, regular traffic once served stays served, and what disappears was found cold by a check and was not in use |
| Protocol.CheckIsComplete | pkg/varnish/monitor.go:141-161 | after a successful check, what it found cold is gone, or was loaded again in the meantime |
| Protocol.ReadinessFirstIsUnsafe | pkg/varnish/varnish.go:265-293 | making the instance ready before labelling would answer the check with 200 and traffic with 503 |
| Instances.UpdateVarnishInstance | pkg/varnish/varnish.go:202-295 | the steps are done in order up to the first failure, with exactly the commands that are needed; with nothing in the way, failure means that something failed |
| Instances.AfterIsSound | pkg/varnish/varnish.go:245-293 | no command of an update is one that Varnish has to refuse |
| Instances.SyncedExactly | pkg/varnish/varnish.go:245-293 | a finished update has loaded, labelled and readied, changed nothing else, and leaves no command for another one |
| Instances.AfterIsSafe | pkg/varnish/varnish.go:245-293 | wherever an update stops, readiness still implies a regular configuration, and traffic once served is served |
| Instances.ScriptOfSession | pkg/varnish/varnish.go:227-294 | the commands of an update are those of the session of the protocol that follows its list |
| Instances.ScriptStep | pkg/varnish/varnish.go:227-294 | step by step |
| Instances.SetCfgLabel | pkg/varnish/varnish.go:349-393 | what was sent, what became of it, and exactly which outcomes are reported |
| Instances.NotReadyUnnoticed | pkg/varnish/varnish.go:382-392 | an instance can be ready after it was set to not ready, without a report, exactly if it was ready before |
| Instances.NotReadyExactly | pkg/varnish/varnish.go:349-393 | setting to not ready keeps an instance safe, and makes it answer 503 if carried out |
| Instances.CheckInst | pkg/varnish/monitor.go:71-162 | only cold configurations that are not in use are discarded; all of them if the check is good |
| Instances.DiscardCold | pkg/varnish/monitor.go:141-161 | the loop over the list, which stops at the first command that fails |
| Instances.DiscardedIsSafe | pkg/varnish/monitor.go:141-161 | discarding keeps every label and the safety of the instance |
| Services.SyncedIsGood | pkg/varnish/varnish.go:297-344 | updating a Service makes its cfgLoaded truthful, whatever it said before, and keeps that of all others that was so |
| Services.UpdateKeepsGood | pkg/varnish/varnish.go:591-617 | Update keeps cfgLoaded truthful for all Services for which it was, and makes it so for its own |
| Services.NotReadyKeepsGood | pkg/varnish/varnish.go:623-649 | so does SetNotReady |
| Services.AddOrUpdateKeepsGood | pkg/varnish/varnish.go:503-549 | so does AddOrUpdateVarnishSvc, if it loads the configuration and no other Service has one of the addresses |
| Services.SecretKeepsGood | pkg/varnish/varnish.go:719-748 | so does UpdateSvcForSecret |
| Services.MonitorKeepsGood | pkg/varnish/monitor.go:164-199 | so does a round of the monitor |
| Services.RetemperedIsGood | pkg/varnish/monitor.go:141-161 | configurations that become cold or warm change nothing about it |
| Services.RestartedIsGood | pkg/varnish/varnish.go:297-344 | a restart of an instance concerns only the Services that have the instance |
| Services.RestartLosesTruth | pkg/varnish/varnish.go:297-344 | a restart keeps it truthful exactly if no Service with the instance has a specification and says that it is loaded |
| Services.StaleExactly | pkg/varnish/varnish.go:297-344 | a Service counts as stale exactly if one of its instances restarted and no operation on the Service came after that |
| Services.AlwaysTruthful | pkg/varnish/varnish.go:297-344 | in every run of these operations, restarts and changes of temperature in which new instances are loaded and have addresses of their own, a Service that is not stale and says its configuration is loaded has all instances loaded, labelled and ready with it |
| Services.MonitorDiscardsRun | pkg/varnish/monitor.go:141-199 | such a run, for any two configurations with different names, in which the first is replaced, becomes cold, and is discarded by the next round of the monitor |
| Services.WithoutLoading | pkg/varnish/varnish.go:474-487 | without loading, cfgLoaded stays truthful exactly if every new instance happens to have the configuration |
| Services.DeletedWithoutError | pkg/varnish/varnish.go:555-566 | every deletion without error keeps it truthful exactly if the Service is not one with known Secrets, instances, a specification, and cfgLoaded |
| Services.DeletedUntruthful | pkg/varnish/varnish.go:555-566 | for every such Service, a deletion without error after which cfgLoaded is wrong |
| Services.NotReadyUnnoticed | pkg/varnish/varnish.go:623-649 | a Service can be set to not ready without error and have an instance that is still ready exactly if there is one before and all instances are in reach |
| Services.HappensKeepsBalance | pkg/varnish/varnish.go:455-549 | every operation keeps the number of instances that is kept at that of the instances, the failed removals and the repeated addresses |
| Services.GaugeInEveryRun | pkg/varnish/varnish.go:416-523 | so it is in every state of every run without deletions |
| Services.NewServiceCount | pkg/varnish/varnish.go:509-523 | a new Service is counted rightly exactly if no address is there twice |
| Services.DeletedWithError | pkg/varnish/varnish.go:555-566 | a deletion with an error keeps it truthful |
| Services.NotReadyAsksForNil | pkg/varnish/varnish.go:629-629 | a Service set to not ready makes HasConfig dereference nil exactly if it said its configuration was loaded |
| Services.UpdatedThenNotReady | pkg/varnish/varnish.go:591-649 | which is so after every successful update |
| Services.NilRun | pkg/varnish/varnish.go:591-649 | a run from the start, for any configuration, in which a Service with one instance is updated and set to not ready without error, and ends there |
| Services.WhitelistChangeLoadsNothing | pkg/varnish/varnish.go:235-263 | an instance that has a configuration is sent no command for the one with a toggled whitelist |
| Controller.UpdateInstances | pkg/varnish/varnish.go:322-338 | every instance is updated, whatever becomes of the others, and an error is collected if one fails |
| Controller.SyncService | pkg/varnish/varnish.go:303-344 | cfgLoaded afterwards says whether all instances were updated; with instances in reach, an error means that something failed |
| Controller.UnreadyInstances | pkg/varnish/varnish.go:396-414 | every instance is set to not ready once, in order; with mayClose, exactly the unknown Secrets are errors |
| Controller.CheckInstances | pkg/varnish/monitor.go:181-186 | every instance is checked, and all is good only if each check discarded everything cold |
| Controller.Controller.UpdateVarnishSvc | pkg/varnish/varnish.go:297-344 | the new state of the controller, other Services untouched |
| Controller.Controller.Update | pkg/varnish/varnish.go:591-617 | the new state of the controller, with the Service made if it was not there |
| Controller.Controller.SetNotReady | pkg/varnish/varnish.go:623-649 | the new state of the controller; without error and failure, all instances in reach are labelled as not available |
| Controller.Controller.DeleteVarnishSvc | pkg/varnish/varnish.go:555-566 | the new state of the controller; an error, and removal of the Service, exactly if a Secret was not known; and the number of instances goes down by those with a known Secret |
| Controller.Controller.MonitorService | pkg/varnish/monitor.go:178-197 | a check of all instances and then an update of the Service; good only if everything cold was discarded and the update was done |
| Controller.Controller.AddOrUpdateVarnishSvc | pkg/varnish/varnish.go:503-549 | the instances are exactly those at the addresses, with the Secret; an error exactly if the update failed or an instance was dropped without a known Secret; and by how much the number of instances changes |
| Controller.AddrKeyExactly | pkg/varnish/varnish.go:511-512 | instances are kept apart by exactly IP and port |
| Controller.Controller.StepAtIsGaugeStep | pkg/varnish/varnish.go:416-523 | which is the change that runs are counted with |
| Controller.Rearrange | pkg/varnish/varnish.go:428-472 | exactly one instance for each address; what was there is the same object, and the rest is new |
| Controller.Drop | pkg/varnish/varnish.go:474-484 | each dropped instance is sent a command at most once; without failures, all of them exactly once, and all are labelled as not available |
| Controller.Readdress | pkg/varnish/varnish.go:416-484 | both together, for any list of instances |
| Controller.AllFound | pkg/varnish/varnish.go:681-699 | a one-way lookup between maps of equal size is equality |
| Controller.SameConfigExactly | pkg/varnish/varnish.go:669-700 | the same configuration means the same resources in the same versions, and equivalent specifications |
| Controller.Controller.HasConfig | pkg/varnish/varnish.go:658-701 | true exactly if the configuration is loaded with the same resources and canonical form; nil is dereferenced exactly if it is said to be loaded but gone |
| Controller.Controller.SetAdmSecret | pkg/varnish/varnish.go:705-714 | the same Secret object as before gets the bytes that fit |
| Controller.SecretStoredExactly | pkg/varnish/varnish.go:705-714 | what is stored is the new Secret exactly if its length is that of the old one; else as many bytes of it as fit, and the rest as before |
| Controller.Controller.UpdateSvcForSecret | pkg/varnish/varnish.go:719-748 | the new state of the controller, with all instances of the Service given the Secret |

## Left out

- Mangle.MangledNamesDiffer: says nothing of names that are cut off or have underscores, which can collide (`Mangle.BoundCollisions`, `Mangle.UnderscoreCollides`).
- Dispositions.FaithfulExactly: takes comparands and counts, and `Dispositions.PromisesKept` also status codes from 200 to 599 and lists of conditions that are not empty, as the schema of the resource demands before the code sees them.
- Dispositions.RenderedMeaning: does not say what a program does in which a value breaks out of its literal, only that it is not read back.
- Controller.Controller.HasConfig: does not tell nil from empty lists and maps, as `reflect.DeepEqual` does, because every list of a specification that the controller makes is either always nil or never nil when it is empty (`pkg/controller/ingress.go`), and `Canonical` makes its outer lists and maps anew.
- Services.AlwaysTruthful: assumes that no two Services share an address, as cfgLoaded is not told of it, and operations of the controller come one after the other.
- Streams.StreamExactly: takes specifications of the same shape, because the stream does not show where a string or a list ends (`DeepHash.BoundariesNotInStream`), and warmups in percent; a change in one place is stated for all shapes where flags and addresses are concerned (`StreamChanges.AddressesShow`).
- Protocol.AlwaysSafe: does not model the lock of an instance object, which only excludes some of the interleavings.
- DialTCP, authentication, timeouts and the text of the Varnish CLI: a command succeeds, fails, or loses its connection.
- Template files other than the conditions and actions of `recv_disposition.tmpl`; the text of the rest of the VCL, and its compilation.
- The VCL source of a configuration on an instance: like the code, the model knows it by name.
- Whether a template can be executed: an arbitrary predicate of the specification.
- The in-place sorting of the specification that the controller keeps, when its name is computed or it is compared: it changes nothing that a later canonical form shows (`CanonicalForm.CanonIdempotent`).
- Floating point: the warmup of a director is a real number, hashed by an arbitrary function of it.
- Queues, informers and workers; errors of listers; the lookup of Pods and their named ports; TLS settings.
- Auth, ACL and rewrite settings of a VarnishConfig: they enter only as parts of the specification.
- Metrics other than the number of instances, logging, Events, waiting for shutdown.
