# Network dashboard core, modelled in Dafny

The dashboard is a plugin-driven web application. A Python server discovers plugins in
its `plugins` directory at start-up and mounts their routers. It keeps one realtime
WebSocket channel to every open browser and broadcasts plugin events on it. A React
front end lists the plugins, renders their widgets (tables, charts, status tiles) and
refreshes each widget when its refresh event arrives.

The one plugin in the core is the LAN scanner. It detects the local IPv4 subnets (from
`netifaces`, or from the output of `ifconfig` or `ip -4 addr`). It scans each subnet by
ARP, falling back to a ping sweep that reads MAC addresses from the ARP cache. It
reconciles what it found into its device table: new devices are inserted, devices not
seen are marked offline, and a scan record and a history point are written. Read
endpoints list devices, the summary, the history and the scans.

The project has one module per source file, plus shared modules:

- `Wrappers`: `Option` and `Result`.
- `JsonData`: JSON values, with JavaScript and Python truthiness.
- `Strings`: prefixes, search, split and join, strip, upper case, decimals.
- `StableSort`: the stable sort of `Array.prototype.sort` and `sorted`.
- `Ipv4`: the part of Python's `ipaddress` the scanner uses.
- `Wire`: the frame the server sends, as the browser dispatches it.

Code that updates state in place is modelled as classes whose methods state the whole new
state. The browser's WebSocket client, the hooks' React state, the data table's sort
state, the server's connection set, the plugin registry and the scan's database session
are such classes. Everything else is functions with lemmas about them.

What the model takes as inputs:

- The outside world is a set of parameters: command output, scapy's answers, `ping` exit
  codes, the resolver, the MAC vendor database, the clock, the filesystem and the HTTP
  transport.
- A listener or send that raises is an input predicate.
- The locale's string comparison and date formatting are function parameters.
- Database tables are sequences in storage order.

Where the code and its own comments disagree, the model follows the code. The overview
comment in `Dashboard.tsx` says "first status widget", but the code keeps every status
widget of every plugin (`Dashboard.SummaryMembers`).

One behaviour of the code is worth knowing. When scapy is missing or not permitted,
`arp_scan` itself runs the ping sweep, and `scan_network` then tags those rows `"arp"`.
The tag is `"ping"` only when `arp_scan` raised: scapy's scan failed, or the fallback sweep
inside it raised and `scan_network`'s own retry of the sweep returned. The retry runs its
subprocesses again, so the model gives it its own view of the network
(`Scanner.ScanNetworkTag`, `Scanner.ArpScanFails`, `Scanner.RecordedMethod`).

## Model

| member | source | states |
|---|---|---|
| WsClient.WSClient.constructor | frontend/src/api/wsClient.ts:9-15 | a new client connects at once: no listeners, one socket created and CONNECTING, no reconnect timer pending, `connected` false |
| WsClient.WSClient.Subscribe | frontend/src/api/wsClient.ts:38-46 | the topic's set gains the listener (created if missing), the returned unsubscribe names exactly that registration, the transport is untouched |
| WsClient.WSClient.Unsubscribe | frontend/src/api/wsClient.ts:43-45 | the returned closure deletes that listener from that topic's set only; the transport is untouched |
| WsClient.WSClient.OnMessage | frontend/src/api/wsClient.ts:17-27 | one inbound frame makes exactly the calls `Delivered` describes and changes nothing in the client |
| WsClient.WSClient.OnOpen | frontend/src/api/wsClient.ts:15-50 | a CONNECTING socket becomes OPEN, so `connected` becomes true; listeners and timers are kept |
| WsClient.WSClient.OnError | frontend/src/api/wsClient.ts:33-35 | an error only closes the socket (CONNECTING/OPEN become CLOSING), so `connected` is false; it schedules nothing |
| WsClient.WSClient.OnClose | frontend/src/api/wsClient.ts:29-31 | a close leaves `connected` false, schedules exactly one reconnect 3000 ms later, and keeps the listener table |
| WsClient.WSClient.OnTimer | frontend/src/api/wsClient.ts:29-31 | the reconnect fires exactly when its due time has come; it creates one new CONNECTING socket (not yet `connected`) and keeps every subscription |
| WsClient.ForEach | frontend/src/api/wsClient.ts:21 | `forEach` makes the calls up to and including the first one that throws, and throws exactly when some call throws |
| WsClient.UntilRaisePrefix | frontend/src/api/wsClient.ts:18-26 | the calls a frame makes are a prefix of the planned ones; all of them before the last returned; delivery stops early only after a throw; with no throw every planned call is made |
| WsClient.UntilRaiseAt | frontend/src/api/wsClient.ts:18-26 | when call k is the first to throw, exactly calls 0..k are made |
| WsClient.UntilRaiseAppend | frontend/src/api/wsClient.ts:21-23 | the wildcard phase runs only when no listener of the topic threw |
| WsClient.SetDeleteKeepsNoDuplicates | frontend/src/api/wsClient.ts:44 | `Set.delete` keeps a set duplicate-free and removes exactly the given member |
| WsClient.SetDeleteAbsent | frontend/src/api/wsClient.ts:44 | deleting a listener that is not there changes nothing |
| WsClient.SetDeleteLast | frontend/src/api/wsClient.ts:42-44 | adding a new member and deleting it restores the set |
| WsClient.SubscribeEffect | frontend/src/api/wsClient.ts:38-42 | subscribing keeps every set duplicate-free, adds exactly the listener to its topic after the existing members, and leaves other topics alone |
| WsClient.SubscribeIdempotent | frontend/src/api/wsClient.ts:39-42 | subscribing the same listener to the same topic twice equals subscribing once |
| WsClient.UnsubscribeEffect | frontend/src/api/wsClient.ts:43-45 | the unsubscribe removes exactly that listener from exactly that topic and keeps everything else |
| WsClient.UnsubscribeIdempotent | frontend/src/api/wsClient.ts:43-45 | calling an unsubscribe twice equals calling it once |
| WsClient.SubscribeThenUnsubscribe | frontend/src/api/wsClient.ts:38-45 | subscribing a new listener and then releasing it restores the topic's set |
| WsClient.PlannedListeners | frontend/src/api/wsClient.ts:19-23 | every call goes to a subscriber of the message's topic or of `*`, and an unparsable frame calls nobody |
| WsClient.ReleasedNeverCalled | frontend/src/api/wsClient.ts:17-27 | a listener registered under no topic is never called, whatever other listeners throw |
| WsClient.SubscribersReceive | frontend/src/api/wsClient.ts:19-23 | with no throwing listener, every topic subscriber gets `msg.data` and every `*` subscriber gets the whole message |
| WsClient.CallsOfCallsTo | frontend/src/api/wsClient.ts:21 | walking a duplicate-free set with `forEach` calls each member exactly once, all with the same argument |
| WsClient.DeliveredOnce | frontend/src/api/wsClient.ts:17-27 | with no throwing listener, a listener is called once per matching registration (its topic, and `*`) |
| WsClient.ChannelUrlInjective | frontend/src/api/wsClient.ts:53 | the channel URL (`wss:` on an https page, `ws:` otherwise, then the host and `/ws`) determines the host and whether the page is secure |
| UseWebSocket.WebSocketHook.constructor | frontend/src/hooks/useWebSocket.ts:4 | the first render holds no registration |
| UseWebSocket.WebSocketHook.Commit | frontend/src/hooks/useWebSocket.ts:5-7 | with unchanged dependencies nothing happens; otherwise the previous registration is released and `(event, callback)` subscribed; the transport is untouched |
| UseWebSocket.WebSocketHook.Unmount | frontend/src/hooks/useWebSocket.ts:6 | unmounting runs the cleanup: the held registration is removed and the callback no longer listens on that topic |
| ApiClient.ApiFetch | frontend/src/api/client.ts:3-12 | resolves to the body exactly for a 2xx status; other statuses reject with an `Error` whose message starts `API error `; transport failures are passed on |
| Wire.BroadcastDispatch | backend/core/websocket_manager.py:22-27 | a server broadcast reaches topic listeners with its data (an empty object for none) and then `*` listeners with the whole frame; with no throw all of them are called |
| UsePlugins.WithOrder | frontend/src/hooks/usePlugins.ts:13 | selects exactly the manifests with a given `sidebar_order` |
| UsePlugins.BySidebarOrderIsPreorder | frontend/src/hooks/usePlugins.ts:13 | the comparator is a total preorder |
| UsePlugins.TiedIsWithOrder | frontend/src/hooks/usePlugins.ts:13 | the manifests the comparator ties are those with equal `sidebar_order` |
| UsePlugins.SidebarSortSpec | frontend/src/hooks/usePlugins.ts:13 | the sidebar list is ascending by `sidebar_order`, a permutation of what was fetched, and keeps fetch order among equal keys |
| UsePlugins.SidebarSortUnique | frontend/src/hooks/usePlugins.ts:13 | any list with those properties is the sort's result |
| UsePlugins.SidebarSortIdempotent | frontend/src/hooks/usePlugins.ts:13 | sorting again changes nothing |
| UsePlugins.PluginsHook.constructor | frontend/src/hooks/usePlugins.ts:6-8 | starts with no plugins, loading, no error |
| UsePlugins.PluginsHook.FetchPlugins | frontend/src/hooks/usePlugins.ts:10-20 | requests `/api/plugins`; success stores the sorted list and clears the error; failure keeps the list and records the `Error` message, or "Failed to load plugins" for any other thrown value; loading ends either way |
| WebSocketManager.BroadcastFrame | backend/core/websocket_manager.py:23-27 | the frame has exactly the keys `event`, `data` (an empty object for no data) and `timestamp` |
| WebSocketManager.Manager.constructor | backend/core/websocket_manager.py:9-11 | the manager starts with no connections |
| WebSocketManager.Manager.Connect | backend/core/websocket_manager.py:13-16 | the socket is added exactly when the handshake is accepted, and `connection_count` grows by one for a new socket |
| WebSocketManager.Manager.Disconnect | backend/core/websocket_manager.py:18-20 | removes the socket, and `connection_count` drops by one if it was open; an unknown socket is no error |
| WebSocketManager.SendAll | backend/core/websocket_manager.py:28-34 | the send loop visits every socket of the snapshot exactly once and collects as dead exactly the sockets whose send raised |
| WebSocketManager.Manager.Broadcast | backend/core/websocket_manager.py:22-35 | every connected socket is sent the frame exactly once; afterwards exactly the sockets whose send raised are dropped, and `connection_count` falls by their number |
| WidgetRenderer.Resolve | frontend/src/components/widgets/WidgetRenderer.tsx:8-15 | exactly `table`, `chart` and `status` resolve, each to its own component |
| WidgetRenderer.SpanClasses | frontend/src/components/widgets/WidgetRenderer.tsx:27-31 | every known kind spans two small columns; only tables and status widgets span three large ones |
| WidgetRenderer.Render | frontend/src/components/widgets/WidgetRenderer.tsx:14-37 | an unknown kind renders the placeholder naming it; a known kind renders its component with the widget's config in the grid cell |
| Dashboard.StatusWidgets | frontend/src/pages/Dashboard.tsx:11 | keeps exactly the widgets of kind `status` |
| Dashboard.StatusWidgetsAppend | frontend/src/pages/Dashboard.tsx:11 | `filter` keeps order: filtering a concatenation filters each part in turn |
| Dashboard.StatusWidgetsSingle | frontend/src/pages/Dashboard.tsx:11 | one widget is kept exactly when it is of kind `status` |
| Dashboard.StatusWidgetsCount | frontend/src/pages/Dashboard.tsx:11 | `filter` keeps duplicates: each status widget occurs as often as in the input, any other widget not at all |
| Dashboard.Page | frontend/src/pages/Dashboard.tsx:8-35 | the empty state "No plugins loaded" exactly when no plugin has a status widget; otherwise one renderer per summary widget, keyed by its id, in order |
| Dashboard.SummaryMembers | frontend/src/pages/Dashboard.tsx:10-12 | the overview holds exactly the status widgets of all plugins (every one, not only the first of each) |
| Dashboard.SummaryAppend | frontend/src/pages/Dashboard.tsx:10-12 | the overview follows plugin order: the list for `a + b` is the list for `a` then the list for `b` |
| Dashboard.SummaryOfOne | frontend/src/pages/Dashboard.tsx:10-12 | for one plugin the overview is its status widgets in manifest order |
| LiveData.RequestUrlRoundTrip | frontend/src/components/widgets/TableWidget.tsx:15 | the client requests `/api` followed by the path; stripping `/api` first requests the configured endpoint exactly when it starts with `/api` |
| LiveData.SettleAllLastSuccess | frontend/src/components/widgets/TableWidget.tsx:13-28 | after any run of fetches the widget shows the last successful result, or its initial data when none succeeded |
| LiveData.LiveState.constructor | frontend/src/components/widgets/TableWidget.tsx:10-11 | a widget starts with its initial data, loading, and showing the spinner |
| LiveData.LiveState.FetchData | frontend/src/components/widgets/TableWidget.tsx:13-22 | requests the endpoint with `/api` rewritten; success replaces the data, failure keeps it; loading ends and the spinner goes either way |
| TableWidget.Render | frontend/src/components/widgets/TableWidget.tsx:30-36 | a spinner exactly while loading; otherwise a card with the title, the configured columns (none when the config has none) and the rows |
| ChartWidget.TimeLabel | frontend/src/components/widgets/ChartWidget.tsx:51 | a point with a truthy `timestamp` is labelled with its formatted string form; any other point gets an empty label |
| ChartWidget.ChartData | frontend/src/components/widgets/ChartWidget.tsx:49-52 | the same points in the same order, each keeping its fields and gaining `time` |
| ChartWidget.Series | frontend/src/components/widgets/ChartWidget.tsx:65-95 | online and offline counts come first; the total is plotted only by the line chart |
| ChartWidget.Render | frontend/src/components/widgets/ChartWidget.tsx:47-110 | a spinner exactly while loading; the no-history text exactly when loaded with no points; otherwise a bar chart for `bar`, an area chart for `area` and a line chart for anything else, over the labelled points |
| StatusWidget.Render | frontend/src/components/widgets/StatusWidget.tsx:38-71 | a spinner exactly while loading; nothing when loaded without data; otherwise the total, online and offline tiles, and a last-scan line exactly when the scan time is non-empty, showing it with the subnets joined by `, ` |
| DataTable.AfterSort | frontend/src/components/common/DataTable.tsx:27-34 | a click sorts on that column; the current column flips direction, another column starts ascending |
| DataTable.SortTwice | frontend/src/components/common/DataTable.tsx:27-34 | two clicks on the current column restore the state; on another column they leave it descending |
| DataTable.AfterHeaderClick | frontend/src/components/common/DataTable.tsx:78 | only a sortable column's header changes the sort state |
| DataTable.SortControl.constructor | frontend/src/components/common/DataTable.tsx:24-25 | the table starts unsorted, ascending |
| DataTable.SortControl.HandleSort | frontend/src/components/common/DataTable.tsx:27-34 | `handleSort` moves the state as `AfterSort` says |
| DataTable.SortControl.ClickHeader | frontend/src/components/common/DataTable.tsx:78 | a header click moves the state as `AfterHeaderClick` says |
| DataTable.CellText | frontend/src/components/common/DataTable.tsx:38-39 | a missing or null cell sorts as the empty string; a string cell as itself |
| DataTable.SortedRows | frontend/src/components/common/DataTable.tsx:36-42 | with no sort key, or the empty string as key (which is falsy), the rows are the input itself; the row count never changes |
| DataTable.ByColumnPreorder | frontend/src/components/common/DataTable.tsx:37-41 | the column comparator and its reverse are total preorders when the string comparison is |
| DataTable.SortedRowsSpec | frontend/src/components/common/DataTable.tsx:36-42 | the shown rows are a permutation of the input; under a non-empty key they are ordered by the comparator in use, with equal cells in input order (descending included) |
| DataTable.DescendingReversesAscending | frontend/src/components/common/DataTable.tsx:40 | on a non-empty key with pairwise different cells, descending order is ascending order reversed |
| DataTable.Render | frontend/src/components/common/DataTable.tsx:22-105 | cards on a mobile width, a table otherwise; one entry per sorted row with one cell per column, `-` for a missing or null value, a badge for `status`, a date for `last_seen`/`first_seen`; headers sortable as configured; "No data" exactly when empty |
| UseResponsive.ExactlyOneClass | frontend/src/hooks/useResponsive.ts:12-17 | every width is in exactly one class |
| UseResponsive.ClassifyMonotone | frontend/src/hooks/useResponsive.ts:12-17 | a wider window is never in a narrower class |
| UseResponsive.ClassifyBreakpoints | frontend/src/hooks/useResponsive.ts:12-17 | the classes change exactly at 640 (mobile to tablet) and 1024 (tablet to desktop) |
| UseResponsive.Viewport.constructor | frontend/src/hooks/useResponsive.ts:4 | the width starts as the window's width, no listener yet |
| UseResponsive.Viewport.Mount | frontend/src/hooks/useResponsive.ts:6-8 | the effect registers the resize handler |
| UseResponsive.Viewport.OnResize | frontend/src/hooks/useResponsive.ts:7 | a resize updates the width only while the handler is registered |
| UseResponsive.Viewport.Unmount | frontend/src/hooks/useResponsive.ts:9 | the cleanup removes the handler and keeps the width |
| StableSort.SortPermutes | frontend/src/components/common/DataTable.tsx:37 | `Array.prototype.sort` returns a permutation of its input |
| StableSort.SortSorted | frontend/src/components/common/DataTable.tsx:37 | under a total preorder the result is ordered |
| StableSort.SortStable | frontend/src/components/common/DataTable.tsx:37 | elements the comparator ties keep their input order |
| StableSort.SortUnique | frontend/src/components/common/DataTable.tsx:37 | an ordered list with the same tied groups in the same order is the sort's result |
| StableSort.SortIdempotent | frontend/src/components/common/DataTable.tsx:37 | an already ordered list is returned unchanged |
| StableSort.SortFlipReverses | frontend/src/components/common/DataTable.tsx:40 | with no ties, sorting by the reversed comparator reverses the result |
| PluginLoader.Visit | backend/core/plugin_loader.py:38-77 | one directory entry: a non-object manifest aborts the walk; a skipped, disabled or failing entry leaves the registry alone; an accepted one is registered under its instance name; a router is mounted exactly when mounting succeeded, with the manifest's `api_prefix` (default `/api/plugins/<name>`) and tag |
| PluginLoader.RegisterValid | backend/core/plugin_loader.py:73-74 | registering keeps the two dicts on the same keys, each listed once |
| PluginLoader.RunAllValid | backend/core/plugin_loader.py:37-77 | the whole walk keeps the two dicts in step |
| PluginLoader.RunAllSnoc | backend/core/plugin_loader.py:37-77 | while nothing escaped, the walk over one more entry visits that entry next |
| PluginLoader.AbortSticks | backend/core/plugin_loader.py:57 | once an exception escapes, no later entry is visited |
| PluginLoader.RegisteredIff | backend/core/plugin_loader.py:37-77 | after a completed walk a name is registered exactly when it was before or some entry was accepted under it |
| PluginLoader.LaterOverwrites | backend/core/plugin_loader.py:73-74 | the manifest and instance under a name are those of the last entry accepted under it |
| PluginLoader.AcceptedOf | backend/core/plugin_loader.py:37-77 | the accepted entries, all of them accepted |
| PluginLoader.ListingOrder | backend/core/plugin_loader.py:37-77 | from an empty registry with distinct names, the registry lists exactly the accepted manifests in walk order |
| PluginLoader.ListsRegister | backend/core/plugin_loader.py:73-74 | registering a fresh name appends it to the listing |
| PluginLoader.SortByNameSpec | backend/core/plugin_loader.py:37 | the walk visits a permutation of the directory, in name order |
| PluginLoader.ValuesInOrder | backend/core/plugin_loader.py:18-19 | the registry's values in key insertion order |
| PluginLoader.Loader.constructor | backend/core/plugin_loader.py:14-15 | both dicts start empty |
| PluginLoader.Loader.Listing | backend/api/plugin_registry.py:11 | `/api/plugins` lists the registered manifests in insertion order |
| PluginLoader.Loader.GetPlugin | backend/core/plugin_loader.py:22-23 | the instance under a name, present exactly when a manifest is registered under it |
| PluginLoader.Loader.DiscoverAndRegister | backend/core/plugin_loader.py:26-77 | a missing directory changes nothing; otherwise the state is the walk's over the entries in sorted order, and it reports whether an exception escaped |
| PluginLoader.Loader.ShutdownAll | backend/core/plugin_loader.py:80-87 | every instance's `on_shutdown` is called in registry order, a failure does not stop the rest, and both dicts end empty |
| Scanner.PrintedReadsBack | backend/plugins/lan_scanner/scanner.py:25 | a subnet printed by `str(network)` is read back by `ip_network` to the same text |
| Scanner.ParsedNotLoopback | backend/plugins/lan_scanner/scanner.py:54-55 | a match that does not start with `127.` is not in 127.0.0.0/8 |
| Scanner.DigitRun | backend/plugins/lan_scanner/scanner.py:52 | `\d+` is greedy: the whole run of digits, ending at a non-digit |
| Scanner.SpaceRun | backend/plugins/lan_scanner/scanner.py:52 | `\s+` is greedy: the whole run of white space |
| Scanner.DigitsThen | backend/plugins/lan_scanner/scanner.py:52 | `\d+` followed by the given character |
| Scanner.DotGroups | backend/plugins/lan_scanner/scanner.py:52 | repeated `\d+\.` groups, made of digits and dots only |
| Scanner.CidrAt | backend/plugins/lan_scanner/scanner.py:52 | `\d+\.\d+\.\d+\.\d+/\d+` at a position: only address characters, ending at a digit that no digit follows |
| Scanner.InetAt | backend/plugins/lan_scanner/scanner.py:52 | a match of `inet\s+(…)` at a position: `inet`, white space, then the captured address text |
| Scanner.InetMatches | backend/plugins/lan_scanner/scanner.py:52-53 | `re.finditer` yields only texts of the CIDR pattern |
| Scanner.ParseIpAddr | backend/plugins/lan_scanner/scanner.py:51-56 | the Linux branch returns the subnets its loop appends, as `LinuxSubnets` defines |
| Scanner.LinuxSubnetsValid | backend/plugins/lan_scanner/scanner.py:52-56 | every subnet of the Linux branch is a printed network outside 127.0.0.0/8 |
| Scanner.LinuxIsUpto | backend/plugins/lan_scanner/scanner.py:52-56 | the Linux subnets are those the item reader gives with the one-match parse |
| Scanner.UptoStop | backend/plugins/lan_scanner/scanner.py:55-57 | an item whose reading raises drops itself and every later item from the result |
| Scanner.LinuxSubnetsStop | backend/plugins/lan_scanner/scanner.py:55-57 | a match `ip_network` rejects ends the parse: it and all later matches are dropped |
| Scanner.IndexOfWord | backend/plugins/lan_scanner/scanner.py:43 | `parts.index(w)` is the first position of `w`, and absent exactly when `w` is not in `parts` |
| Scanner.NatToHex | backend/plugins/lan_scanner/scanner.py:46 | a hex numeral is made of hex digits |
| Scanner.HexRoundTrip | backend/plugins/lan_scanner/scanner.py:46 | a hex numeral reads back as its value |
| Scanner.HexPrefixedParse | backend/plugins/lan_scanner/scanner.py:46 | `int("0x…", 16)` gives the digits' value |
| Scanner.HexPlainParse | backend/plugins/lan_scanner/scanner.py:46 | `int(d, 16)` on plain hex digits gives their value; a leading `0` is not a prefix |
| Scanner.IfconfigMaskParse | backend/plugins/lan_scanner/scanner.py:45-47 | the `0x` netmask `ifconfig` prints reads back as the mask |
| Scanner.InetLineWords | backend/plugins/lan_scanner/scanner.py:40-42 | a stripped line starting with `inet ` has at least two words, so `parts[1]` exists |
| Scanner.IfconfigLineValid | backend/plugins/lan_scanner/scanner.py:40-49 | a line that contributes a subnet contributes a printed network |
| Scanner.UptoAppend | backend/plugins/lan_scanner/scanner.py:38-49 | reading two runs of items: the second is reached only when nothing in the first raises |
| Scanner.ReadItems | backend/plugins/lan_scanner/scanner.py:38-49 | the loop over lines or matches appends the subnets read, in order, and stops at the first item that raises |
| Scanner.DarwinIsUpto | backend/plugins/lan_scanner/scanner.py:38-49 | the Darwin subnets are those the line reader gives with the one-line parse |
| Scanner.ParseIfconfig | backend/plugins/lan_scanner/scanner.py:37-49 | the Darwin branch returns the subnets its loop appends, up to the first line that raises |
| Scanner.DarwinSubnetsValid | backend/plugins/lan_scanner/scanner.py:38-49 | every subnet of the Darwin branch is a printed network |
| Scanner.DottedMaskAgrees | backend/plugins/lan_scanner/scanner.py:47-48 | a netmask given as dotted quad selects the same network as its prefix length |
| Scanner.DefaultSubnetPrinted | backend/plugins/lan_scanner/scanner.py:59 | the default `192.168.1.0/24` is the printed form of a network outside 127.0.0.0/8 |
| Scanner.FallbackSubnetDetection | backend/plugins/lan_scanner/scanner.py:32-59 | the fallback returns what its platform's parser found, or the default when that is empty or raised |
| Scanner.FoundValid | backend/plugins/lan_scanner/scanner.py:35-58 | everything either parser finds is a printed network |
| Scanner.FallbackValid | backend/plugins/lan_scanner/scanner.py:59 | the fallback never returns an empty list, and only printed networks |
| Scanner.NetifacesIsUpto | backend/plugins/lan_scanner/scanner.py:20-25 | the netifaces parse fails exactly when some entry raises, and otherwise returns the networks of the contributing entries in order |
| Scanner.EntriesFlatten | backend/plugins/lan_scanner/scanner.py:17-20 | the entries visited are those of each interface's `AF_INET` list, interface by interface |
| Scanner.DetectLocalSubnets | backend/plugins/lan_scanner/scanner.py:12-29 | returns or raises what `DetectedSubnets` describes: netifaces when installed, the fallback otherwise |
| Scanner.ReadNetifaces | backend/plugins/lan_scanner/scanner.py:17-25 | the loop over interfaces gives the netifaces result for all their entries in order |
| Scanner.ReadGroups | backend/plugins/lan_scanner/scanner.py:17-25 | the nested loop over interfaces and their entries reads all entries in order and stops at the first that raises |
| Scanner.NetifacesValid | backend/plugins/lan_scanner/scanner.py:20-25 | every subnet read from netifaces is a printed network outside 127.0.0.0/8 |
| Scanner.EntryValid | backend/plugins/lan_scanner/scanner.py:23-25 | a contributing entry `ip_network` accepts gives a printed network outside 127.0.0.0/8 |
| Scanner.NetifacesOnlyLoopback | backend/plugins/lan_scanner/scanner.py:23 | with netifaces and only loopback addresses the result is empty, and the fallback is not used |
| Scanner.DetectedValid | backend/plugins/lan_scanner/scanner.py:62-63 | `detect_subnets` raises only when netifaces rejects an entry, returns printed networks, and without netifaces never returns an empty list |
| Scanner.ArpDevices | backend/plugins/lan_scanner/scanner.py:95-103 | one row per answer, in answer order, each built from the answer |
| Scanner.CollectAnswers | backend/plugins/lan_scanner/scanner.py:95-103 | the loop over the answers builds exactly those rows |
| Scanner.ArpMacsUpper | backend/plugins/lan_scanner/scanner.py:97 | every MAC from the ARP scan is upper-cased and keeps its length |
| Scanner.IpsOf | backend/plugins/lan_scanner/scanner.py:165-167 | the address of each row, in order |
| Scanner.AddrTexts | backend/plugins/lan_scanner/scanner.py:165 | the text of each host address, in order |
| Scanner.SweepSpec | backend/plugins/lan_scanner/scanner.py:137-167 | the sweep raises exactly when `ping` cannot run on some host; otherwise it keeps only the responders, in host order, each row built by `ping_host` |
| Scanner.RespondersMember | backend/plugins/lan_scanner/scanner.py:152-153 | an address is a responder exactly when it is pinged and `ping` exits 0 |
| Scanner.PingRowMac | backend/plugins/lan_scanner/scanner.py:151-161 | a ping row reports `unknown` exactly when the ARP cache gave no MAC, and a vendor only with a MAC |
| Scanner.ScanNetworkTag | backend/plugins/lan_scanner/scanner.py:170-178 | the tag is `ping` exactly when `arp_scan` raised (scapy failed, or its own fallback sweep raised); scapy missing or not permitted with a returning sweep gives the ping rows tagged `arp`; it raises exactly when `arp_scan` raised and the retried sweep raised |
| Scanner.ArpScanFails | backend/plugins/lan_scanner/scanner.py:81-111 | `arp_scan` raises exactly when scapy's scan failed, or scapy is missing or not permitted and the ping sweep it fell back to raised |
| Scanner.RecordedMethod | backend/plugins/lan_scanner/tasks.py:15-31 | a scan is recorded as `ping` exactly when, for some subnet, `arp_scan` raised and the retried ping sweep returned |
| ArpCache.HexPair | backend/plugins/lan_scanner/scanner.py:124 | `[\da-fA-F]{1,2}` takes at most two characters, all hex digits |
| ArpCache.MacGroup | backend/plugins/lan_scanner/scanner.py:124 | one `[\da-fA-F]{1,2}[:-]` group ends with a separator, two or three characters on |
| ArpCache.MacGroups | backend/plugins/lan_scanner/scanner.py:124 | `{5}` groups span 10 to 15 characters |
| ArpCache.MacTail | backend/plugins/lan_scanner/scanner.py:124 | the final hex pair adds one or two characters |
| ArpCache.MacAt | backend/plugins/lan_scanner/scanner.py:124 | a match is 11 to 17 characters long |
| ArpCache.MacAtChars | backend/plugins/lan_scanner/scanner.py:124 | a match holds only hex digits and separators |
| ArpCache.FirstMatchLeftmost | backend/plugins/lan_scanner/scanner.py:124 | the first position found starts a match and no earlier one does |
| ArpCache.MacSearch | backend/plugins/lan_scanner/scanner.py:124 | `re.search` returns the bounds of a match of the pattern |
| ArpCache.MacSearchLeftmost | backend/plugins/lan_scanner/scanner.py:124 | the pattern is tried at every position; the match found is the leftmost, and none is found only when no position starts one |
| ArpCache.NormalizeMacIndex | backend/plugins/lan_scanner/scanner.py:126 | normalising upper-cases each character and turns `-` into `:`, keeping the length |
| ArpCache.NormalizeMacFixed | backend/plugins/lan_scanner/scanner.py:126 | normalising a normalised MAC changes nothing |
| ArpCache.NormalizedMatch | backend/plugins/lan_scanner/scanner.py:124-126 | a normalised match has 11 to 17 characters, each a digit, an upper-case hex letter or `:` |
| ArpCache.ArpCacheMacNormal | backend/plugins/lan_scanner/scanner.py:114-129 | a MAC from the ARP cache is the leftmost match of the output, normalised, and already in normal form |
| ArpCache.ArpCacheMacNone | backend/plugins/lan_scanner/scanner.py:114-129 | there is no MAC exactly when `arp` raised or the output has no match |
| ScanTasks.MethodOfSpec | backend/plugins/lan_scanner/tasks.py:22-29 | the scan method is `ping` exactly when some subnet's scan reported `ping`, and `arp` otherwise |
| ScanTasks.FoundMacsSpec | backend/plugins/lan_scanner/tasks.py:43-46 | a MAC is found exactly when some reported host has it and it is not `unknown` |
| ScanTasks.Upsert | backend/plugins/lan_scanner/tasks.py:42-67 | one reported host with a known MAC adds its MAC to the table if new; an `unknown` one changes no key |
| ScanTasks.UpsertAll | backend/plugins/lan_scanner/tasks.py:42-67 | the table gains exactly the found MACs |
| ScanTasks.UpsertAllSpec | backend/plugins/lan_scanner/tasks.py:51-66 | every found device is online and last seen now, keeps its first-seen time if it existed and is first seen now if new; every other device is untouched |
| ScanTasks.UpsertAllKeepsNames | backend/plugins/lan_scanner/tasks.py:53-54 | a hostname or vendor once recorded is never lost: a later report without one keeps the stored value |
| ScanTasks.UpsertAllFound | backend/plugins/lan_scanner/tasks.py:55-56 | every found device ends online and last seen now |
| ScanTasks.UpsertAllFirstSeen | backend/plugins/lan_scanner/tasks.py:58-66 | an existing device keeps its first-seen time; a new one is first seen now |
| ScanTasks.UpsertAllUntouched | backend/plugins/lan_scanner/tasks.py:42-67 | a device not reported is untouched by the update loop |
| ScanTasks.NewOnesCount | backend/plugins/lan_scanner/tasks.py:68 | `new_count` is the number of distinct found MACs not in the table before, however often each was reported |
| ScanTasks.NewOnesMembers | backend/plugins/lan_scanner/tasks.py:67-69 | each announced new host was reported, with a known MAC that was not in the table |
| ScanTasks.MarkOfflineSpec | backend/plugins/lan_scanner/tasks.py:72-76 | the offline pass changes only the status of online devices not reported; every other device is untouched |
| ScanTasks.StaleAfterUpsert | backend/plugins/lan_scanner/tasks.py:72-74 | the devices taken offline are those online before the scan and not reported |
| ScanTasks.OnlineIffFound | backend/plugins/lan_scanner/tasks.py:100 | after a scan a device is online exactly when this scan reported it, so the online count is the number of distinct MACs found |
| ScanTasks.PartitionCount | backend/plugins/lan_scanner/tasks.py:100-108 | with every status online or offline, the two counts add up to the number of devices |
| ScanTasks.HistoryTotal | backend/plugins/lan_scanner/tasks.py:100-108 | a scan keeps every status online or offline, so the history total counts every device |
| ScanTasks.CollectResults | backend/plugins/lan_scanner/tasks.py:21-31 | the first loop gathers the hosts of every subnet that did not raise, in order, and the scan method |
| ScanTasks.ReconcileStep | backend/plugins/lan_scanner/tasks.py:42-69 | the update loop's result grows by one reported host at a time |
| ScanTasks.AnnouncesOfflineAfterUpsert | backend/plugins/lan_scanner/tasks.py:72-80 | the offline broadcasts name the same devices and addresses read before or after the update loop |
| ScanTasks.ScanBroadcastsIntro | backend/plugins/lan_scanner/tasks.py:17-119 | the broadcasts of a scan are `scan_started`, one `device_new` per newly inserted device in report order, the offline ones, then `scan_complete` with the counts |
| ScanTasks.PendingDone | backend/plugins/lan_scanner/tasks.py:72-76 | when the offline pass has visited every online device, the ones it took offline are exactly the stale ones |
| ScanTasks.PartlyOfflineDone | backend/plugins/lan_scanner/tasks.py:72-76 | taking every stale device offline gives the offline pass's result |
| ScanTasks.ScanDb.constructor | backend/plugins/lan_scanner/models.py:1 | a database with the given tables |
| ScanTasks.ScanDb.Reconcile | backend/plugins/lan_scanner/tasks.py:40-69 | the update loop: the table becomes the reconciled one, `found_macs` the found MACs, and each insertion is counted and announced |
| ScanTasks.ScanDb.MarkUnseenOffline | backend/plugins/lan_scanner/tasks.py:72-80 | every online device not reported becomes offline once and is announced; the count is the number of stale devices |
| ScanTasks.ScanDb.RunScan | backend/plugins/lan_scanner/tasks.py:15-121 | `scan_started` is broadcast first; when `detect_subnets()` raises, the exception escapes and nothing else is broadcast or written; otherwise the table becomes the reconciled table after the offline pass, one scan record (joined subnets, counts, method, status `completed`) and one history point are appended, and the broadcasts come in order |
| LanRoutes.ByIpPreorder | backend/plugins/lan_scanner/routes.py:22 | ordering by address text is a total preorder |
| LanRoutes.OfStatus | backend/plugins/lan_scanner/routes.py:24 | keeps exactly the rows with the given status, each as often as stored |
| LanRoutes.ListDevicesSpec | backend/plugins/lan_scanner/routes.py:17-26 | the listing holds every stored row that passes the filter, once per occurrence and nothing else, ordered by address; no or an empty status passes every row |
| LanRoutes.WithIp | backend/plugins/lan_scanner/routes.py:31 | the rows with the given address |
| LanRoutes.GetDevice | backend/plugins/lan_scanner/routes.py:29-36 | 404 exactly when no row has the address; a found row is the one with that address |
| LanRoutes.LastCompleted | backend/plugins/lan_scanner/routes.py:45-47 | the latest completion time, absent exactly when no scan completed |
| LanRoutes.GetSummary | backend/plugins/lan_scanner/routes.py:39-56 | fails with 500 exactly when `detect_subnets()` raises; otherwise total is the row count and equals online plus offline, and the last scan time and the detected subnets are passed through |
| LanRoutes.StatusSplit | backend/plugins/lan_scanner/routes.py:41-43 | the rows with a status and those without it add up to all rows |
| LanRoutes.SummaryOffline | backend/plugins/lan_scanner/routes.py:43 | when the summary is answered, `offline_devices` counts every device not online, not only those marked offline |
| LanRoutes.Limit | backend/plugins/lan_scanner/routes.py:61 | an absent limit takes the default; a limit outside `[1, max]` is refused with 422 |
| LanRoutes.DescPreorder | backend/plugins/lan_scanner/routes.py:65 | newest-first ordering is a total preorder |
| LanRoutes.SortDesc | backend/plugins/lan_scanner/routes.py:65 | sorting newest first is a permutation whose keys never increase |
| LanRoutes.NewestOrder | backend/plugins/lan_scanner/routes.py:65 | the newest `k` rows: as many as exist up to `k`, newest first |
| LanRoutes.NewestSelection | backend/plugins/lan_scanner/routes.py:65 | the newest `k` rows come from the table, and no row left out is newer than one returned |
| LanRoutes.ReverseAscending | backend/plugins/lan_scanner/routes.py:68 | a newest-first list reversed is oldest first |
| LanRoutes.GetHistory | backend/plugins/lan_scanner/routes.py:59-68 | refused exactly when the limit is out of range |
| LanRoutes.GetHistoryOrder | backend/plugins/lan_scanner/routes.py:59-68 | at most `limit` points (50 by default), in ascending time |
| LanRoutes.GetHistorySelection | backend/plugins/lan_scanner/routes.py:64-68 | the points are stored ones and no point left out is newer than one returned |
| LanRoutes.ListScans | backend/plugins/lan_scanner/routes.py:71-79 | refused exactly when the limit is out of range |
| LanRoutes.ListScansOrder | backend/plugins/lan_scanner/routes.py:71-79 | at most `limit` records (20 by default), newest start first |
| LanRoutes.ListScansSelection | backend/plugins/lan_scanner/routes.py:76-79 | the records are stored ones and no record left out started later than one returned |
| Strings.Upper | backend/plugins/lan_scanner/scanner.py:97 | `str.upper` keeps the length, leaves no lower-case letter, and changes nothing but lower-case letters, each to its capital |
| Strings.UpperIdempotent | backend/plugins/lan_scanner/scanner.py:97 | upper-casing twice is upper-casing once |
| Strings.ReplaceChar | backend/plugins/lan_scanner/scanner.py:126 | `replace("-", ":")` keeps the length, leaves no `-`, and changes exactly the `-` characters, each to `:` |
| Strings.ReplaceCharIdempotent | backend/plugins/lan_scanner/scanner.py:126 | replacing a second time changes nothing |
| Strings.Strip | backend/plugins/lan_scanner/scanner.py:39 | `str.strip` leaves no white space at either end |
| Strings.Words | backend/plugins/lan_scanner/scanner.py:41 | `str.split()` yields non-empty words without white space |
| Strings.SplitJoin | backend/plugins/lan_scanner/scanner.py:38 | joining the pieces of `split("\n")` gives back the text |
| Strings.JoinSplit | backend/plugins/lan_scanner/tasks.py:84 | splitting a non-empty joined list of separator-free texts gives back the list |
| Ipv4.MaskAccepted | backend/plugins/lan_scanner/scanner.py:24 | every netmask is accepted with its own prefix |
| Ipv4.IntRoundTrip | backend/plugins/lan_scanner/scanner.py:47 | `int(IPv4Address(v)) == v` for every 32-bit value |
| Ipv4.AddrRoundTrip | backend/plugins/lan_scanner/scanner.py:47 | `IPv4Address(int(a)) == a` for every address |
| Ipv4.ParseOctet | backend/plugins/lan_scanner/scanner.py:24 | an accepted octet text is the canonical decimal of its value |
| Ipv4.FormatParse | backend/plugins/lan_scanner/scanner.py:47 | the printed form of an address reads back as that address |
| Ipv4.ParseFormat | backend/plugins/lan_scanner/scanner.py:24 | an accepted address text is the printed form of its address |
| Ipv4.LoopbackText | backend/plugins/lan_scanner/scanner.py:23 | an accepted address in 127.0.0.0/8 is written with the prefix `127.` |
| Ipv4.PrefixFromIntSpec | backend/plugins/lan_scanner/scanner.py:24 | a mask value is accepted exactly when it is the netmask of its prefix |
| Ipv4.PrefixTextRoundTrip | backend/plugins/lan_scanner/scanner.py:55 | a printed prefix length reads back |
| Ipv4.NetmaskText | backend/plugins/lan_scanner/scanner.py:24 | a dotted-quad netmask gives its prefix length |
| Ipv4.HostmaskText | backend/plugins/lan_scanner/scanner.py:24 | a dotted-quad host mask gives the prefix it complements |
| Ipv4.HostmaskRejected | backend/plugins/lan_scanner/scanner.py:24 | a host mask strictly between /0 and /32 is not a netmask |
| Ipv4.MaskOctetFacts | backend/plugins/lan_scanner/scanner.py:24 | a masked octet is the start of the block of host values holding the octet |
| Ipv4.ParseNetwork | backend/plugins/lan_scanner/scanner.py:24 | `ip_network(text, strict=False)` yields a network whose host bits are clear |
| Ipv4.NormalizeIdempotent | backend/plugins/lan_scanner/scanner.py:24 | clearing the host bits twice is clearing them once |
| Ipv4.NormalizeOctets | backend/plugins/lan_scanner/scanner.py:24 | octets inside the prefix are kept and octets past it are zero |
| Ipv4.NormalizeNotLoopback | backend/plugins/lan_scanner/scanner.py:54-55 | clearing host bits never moves an address into 127.0.0.0/8 |
| Ipv4.NetworkRoundTrip | backend/plugins/lan_scanner/scanner.py:25 | the printed form of a network reads back as that network |
| Ipv4.ParseNetworkCanonical | backend/plugins/lan_scanner/scanner.py:24-25 | printing a parsed network and parsing it again gives the same network |
| Ipv4.Range | backend/plugins/lan_scanner/scanner.py:135 | consecutive addresses from `lo` up to `hi` |
| Ipv4.HostsIncreasing | backend/plugins/lan_scanner/scanner.py:135 | `hosts()` lists its addresses in increasing order |
| Ipv4.HostsSpan | backend/plugins/lan_scanner/scanner.py:135 | an address is a host exactly when it lies strictly between the network and broadcast addresses (inclusively for /31 and /32) |

## Left out

- Transport and timing are not modelled: real sockets, `setTimeout` and `asyncio`
  scheduling. Events arrive as method calls, and the clock is a parameter.
- Concurrency is not modelled: `asyncio.gather` with its semaphore of 50, the
  broadcaster's lock, and the executor that runs scapy. The ping results are combined in
  host order, which is what `gather` returns.
- Subprocesses, scapy, `netifaces`, `socket.gethostbyaddr` and `mac_vendor_lookup` are
  inputs (`Scanner.Env`, command output as `Option<string>`).
- Logging is not modelled, and neither are `sys.path` handling or `time.time()`. The
  duration and the timestamps are parameters.
- SQL is not modelled as a query engine. `ORDER BY` ties, which SQL leaves open, keep
  storage order. The order of the offline pass, which has no `ORDER BY`, is left open in
  `ScanTasks.ScanDb.MarkUnseenOffline`.
- Data the code only passes along is not modelled: `trigger_scan` answers "Scan started"
  and spawns `run_scan` (modelled as `ScanTasks.ScanDb.RunScan`), and `get_subnets` returns
  what `detect_subnets` gives, failing with 500 when it raises (`Scanner.DetectedValid`).
- Plugin hooks (`initialize`, `get_router`, `register_tasks`, `on_shutdown`) are modelled
  only as whether they raise. Their side effects are not modelled.
- Rendering is modelled as a view value: styling, icons, the error boundary's fallback
  and the layout components are not.
- `ipaddress` is modelled for IPv4 only. A text `ip_network` would read as IPv6 counts as
  rejected, since the scanner only ever passes IPv4 text.
- Character classes are ASCII: `\d`, `\s`, `str.isdigit`, `str.upper` and
  `String.prototype.toUpperCase` are not modelled on non-ASCII characters.
- Scanner.PingSweep: error messages are abstracted to `"ValueError"` and `"OSError"`.
  The exception types are not modelled.
- Ipv4.Hosts: the number of hosts of a network is not stated; its membership and order are
  (`Ipv4.HostsSpan`, `Ipv4.HostsIncreasing`).
- ArpCache.ArpCacheMacNormal: the normalised MAC is proved to be in normal form. It is not
  proved that reading it back through the pattern yields the same MAC.
- Scanner.InetLineWords: the `IndexError` on `parts[1]` cannot happen for a stripped line
  starting with `inet `, so the model has no branch for it.
- Floating point is not modelled: the duration's `int(... * 1000)`, and JSON numbers,
  which are integers here (`sidebar_order`, chart counts, summary counts).
- WsClient.WSClient.OnMessage: listeners are modelled as calls that return or throw. A
  listener that subscribes or unsubscribes during delivery would change the sets the live
  `forEach` is still walking; the model assumes listeners do not touch the subscription
  table while a message is delivered.
- UsePlugins.PluginsHook.FetchPlugins: the fetched manifests are assumed to have the
  declared shape. The loader registers any JSON object, and a manifest without `frontend`
  would make the sort's comparator throw a `TypeError`, which `fetchPlugins` would record
  as its error while keeping the old list; that path is not modelled.
