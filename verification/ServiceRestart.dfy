/**
  Restarting the services: on the live host a restart first brings the service
  unit, the socket unit and the certificate hook in line with the subscription
  mode. Whether a unit is one of the program's own is told by a marker in it.

  A step that fails ends the restart; what the steps before it wrote or removed
  stays as it is.
 */
module ServiceRestart {
  import opened Wrappers
  import opened ManagedFiles

  type Files = map<string, Bytes>

  const UNIT_DIRECTORY: string := "etc/systemd/system/"
  const SERVICE_UNIT: string := UNIT_DIRECTORY + "sbctl.service"
  const SOCKET_UNIT: string := UNIT_DIRECTORY + "sbctl-http.socket"

  const HOOK_DIRECTORY: string := "etc/letsencrypt/renewal-hooks/deploy/"
  const DEPLOY_HOOK: string := HOOK_DIRECTORY + "sbctl-certificate-deploy-hook"

  /** The texts the running program wants in place, and which texts carry its markers. */
  datatype Texts = Texts(
    directService: Bytes, plainService: Bytes, socket: Bytes, hook: Bytes,
    ownService: Bytes -> bool, ownSocket: Bytes -> bool, ownHook: Bytes -> bool)

  /** How the single steps of a restart go; only the live host reconciles its units. */
  datatype Attempt = Attempt(
    live: bool, configLoaded: bool, serviceWritten: bool, socketWritten: bool, hookChanged: bool,
    hookExecutable: bool, reloaded: bool, started: bool)

  datatype Step = Step(files: Files, ok: bool)

  predicate MayRewrite(p: string) { p == SERVICE_UNIT || p == SOCKET_UNIT || p == DEPLOY_HOOK }

  lemma OwnPathsDiffer()
    ensures SERVICE_UNIT != SOCKET_UNIT && SERVICE_UNIT != DEPLOY_HOOK && SOCKET_UNIT != DEPLOY_HOOK
  {
    assert SERVICE_UNIT[24] == "sbctl.service"[5] && SOCKET_UNIT[24] == "sbctl-http.socket"[5];
    assert SERVICE_UNIT[4] == UNIT_DIRECTORY[4] && SOCKET_UNIT[4] == UNIT_DIRECTORY[4] && DEPLOY_HOOK[4] == HOOK_DIRECTORY[4];
  }

  function ServiceText(texts: Texts, direct: bool): Bytes { if direct then texts.directService else texts.plainService }

  // ---------------------------------------------------------------- what a restart makes of the files

  function AfterService(files: Files, direct: bool, texts: Texts, a: Attempt): Step {
    if SERVICE_UNIT !in files || !texts.ownService(files[SERVICE_UNIT]) then Step(files, false)
    else if files[SERVICE_UNIT] == ServiceText(texts, direct) then Step(files, true)
    else if a.serviceWritten then Step(files[SERVICE_UNIT := ServiceText(texts, direct)], true)
    else Step(files, false)
  }

  /** In Direct mode the socket is written when it or the service changed; in the others it is only looked at. */
  function AfterSocket(files: Files, direct: bool, texts: Texts, serviceChanged: bool, a: Attempt): Step {
    if SOCKET_UNIT in files && !texts.ownSocket(files[SOCKET_UNIT]) then Step(files, false)
    else if direct && (serviceChanged || SOCKET_UNIT !in files || files[SOCKET_UNIT] != texts.socket) then
      if a.socketWritten then Step(files[SOCKET_UNIT := texts.socket], true) else Step(files, false)
    else Step(files, true)
  }

  function AfterHook(files: Files, direct: bool, texts: Texts, a: Attempt): Step {
    if DEPLOY_HOOK in files && !texts.ownHook(files[DEPLOY_HOOK]) then Step(files, false)
    else if direct then
      if DEPLOY_HOOK in files && files[DEPLOY_HOOK] == texts.hook then Step(files, a.hookExecutable)
      else if a.hookChanged then Step(files[DEPLOY_HOOK := texts.hook], a.hookExecutable)
      else Step(files, false)
    else if DEPLOY_HOOK !in files then Step(files, true)
    else if a.hookChanged then Step(files - {DEPLOY_HOOK}, true)
    else Step(files, false)
  }

  /** Whether systemd has to read the units again. */
  predicate UnitsChange(files: Files, direct: bool, texts: Texts) {
    || SERVICE_UNIT !in files || files[SERVICE_UNIT] != ServiceText(texts, direct)
    || (direct && (SOCKET_UNIT !in files || files[SOCKET_UNIT] != texts.socket))
  }

  function Reconciled(files: Files, direct: bool, texts: Texts, a: Attempt): Step {
    var service := AfterService(files, direct, texts, a);
    if !service.ok then service
    else
      var socket := AfterSocket(service.files, direct, texts, files[SERVICE_UNIT] != ServiceText(texts, direct), a);
      if !socket.ok then socket
      else
        var hook := AfterHook(socket.files, direct, texts, a);
        if !hook.ok then hook
        else Step(hook.files, UnitsChange(files, direct, texts) ==> a.reloaded)
  }

  function AfterRestart(files: Files, direct: bool, texts: Texts, a: Attempt): Step {
    if !a.live then Step(files, a.started)
    else if !a.configLoaded then Step(files, false)
    else
      var reconciled := Reconciled(files, direct, texts, a);
      Step(reconciled.files, reconciled.ok && a.started)
  }

  // ---------------------------------------------------------------- the restart itself

  method ReconcileSubscriptionUnits(store: FileStore<string>, direct: bool, texts: Texts, a: Attempt) returns (ok: bool)
    modifies store`files
    ensures Step(store.files, ok) == Reconciled(old(store.files), direct, texts, a)
  {
    OwnPathsDiffer();
    if SERVICE_UNIT !in store.files {
      return false;
    }
    var existingService := store.files[SERVICE_UNIT];
    if !texts.ownService(existingService) {
      return false;
    }
    var desiredService := ServiceText(texts, direct);
    var changed := existingService != desiredService;
    if changed {
      if !a.serviceWritten {
        return false;
      }
      store.files := store.files[SERVICE_UNIT := desiredService];
    }
    if direct {
      if SOCKET_UNIT in store.files {
        if !texts.ownSocket(store.files[SOCKET_UNIT]) {
          return false;
        }
        changed := changed || store.files[SOCKET_UNIT] != texts.socket;
      } else {
        changed := true;
      }
      if changed {
        if !a.socketWritten {
          return false;
        }
        store.files := store.files[SOCKET_UNIT := texts.socket];
      }
    } else if SOCKET_UNIT in store.files && !texts.ownSocket(store.files[SOCKET_UNIT]) {
      return false;
    }
    ok := ReconcileCertificateHook(store, direct, texts, a);
    ok := ok && (changed ==> a.reloaded);
  }

  method ReconcileCertificateHook(store: FileStore<string>, direct: bool, texts: Texts, a: Attempt) returns (ok: bool)
    modifies store`files
    ensures Step(store.files, ok) == AfterHook(old(store.files), direct, texts, a)
  {
    if DEPLOY_HOOK in store.files && !texts.ownHook(store.files[DEPLOY_HOOK]) {
      return false;
    }
    if direct {
      if DEPLOY_HOOK !in store.files || store.files[DEPLOY_HOOK] != texts.hook {
        if !a.hookChanged {
          return false;
        }
        store.files := store.files[DEPLOY_HOOK := texts.hook];
      }
      return a.hookExecutable;
    }
    if DEPLOY_HOOK in store.files {
      if !a.hookChanged {
        return false;
      }
      store.files := store.files - {DEPLOY_HOOK};
    }
    ok := true;
  }

  method RestartServices(store: FileStore<string>, direct: bool, texts: Texts, a: Attempt) returns (ok: bool)
    modifies store`files
    ensures Step(store.files, ok) == AfterRestart(old(store.files), direct, texts, a)
  {
    if a.live {
      if !a.configLoaded {
        return false;
      }
      ok := ReconcileSubscriptionUnits(store, direct, texts, a);
      if !ok {
        return;
      }
    }
    ok := a.started;
  }

  // ---------------------------------------------------------------- when it changes nothing

  /** The service unit is the mode's; in Direct mode socket and hook are in place, in the others there is no hook. */
  predicate InLine(files: Files, direct: bool, texts: Texts) {
    && SERVICE_UNIT in files
    && files[SERVICE_UNIT] == (if direct then texts.directService else texts.plainService)
    && (if direct
        then SOCKET_UNIT in files && files[SOCKET_UNIT] == texts.socket && DEPLOY_HOOK in files && files[DEPLOY_HOOK] == texts.hook
        else DEPLOY_HOOK !in files)
  }

  /** However its steps go, a restart leaves files alone that are in line. */
  lemma InLineIsLeftAlone(files: Files, direct: bool, texts: Texts, a: Attempt)
    requires InLine(files, direct, texts)
    ensures AfterRestart(files, direct, texts, a).files == files
  {
    OwnPathsDiffer();
  }

  /** A restart of the live host that succeeds leaves the files in line. */
  lemma SuccessBringsInLine(files: Files, direct: bool, texts: Texts, a: Attempt)
    requires a.live && AfterRestart(files, direct, texts, a).ok
    ensures InLine(AfterRestart(files, direct, texts, a).files, direct, texts)
  {
    OwnPathsDiffer();
  }

  /** So one that succeeds changes nothing if and only if the files were in line before it. */
  lemma RestartChangesNothingIff(files: Files, direct: bool, texts: Texts, a: Attempt)
    requires a.live && AfterRestart(files, direct, texts, a).ok
    ensures AfterRestart(files, direct, texts, a).files == files <==> InLine(files, direct, texts)
  {
    SuccessBringsInLine(files, direct, texts, a);
    if InLine(files, direct, texts) {
      InLineIsLeftAlone(files, direct, texts, a);
    }
  }

  /** The units are read again exactly when one of their files changes: a reload that fails matters then, and only then. */
  lemma ReloadsExactlyWhenUnitsChange(files: Files, direct: bool, texts: Texts, a: Attempt)
    requires a.reloaded && Reconciled(files, direct, texts, a).ok
    ensures var after := Reconciled(files, direct, texts, a).files;
            Reconciled(files, direct, texts, a.(reloaded := false)).ok
            <==> SameAt(files, after, SERVICE_UNIT) && SameAt(files, after, SOCKET_UNIT)
  {
    ReloadComesLast(files, direct, texts, a);
    UnitsChangeIff(files, direct, texts, a);
  }

  lemma ReloadComesLast(files: Files, direct: bool, texts: Texts, a: Attempt)
    requires a.reloaded && Reconciled(files, direct, texts, a).ok
    ensures Reconciled(files, direct, texts, a.(reloaded := false)).ok <==> !UnitsChange(files, direct, texts)
  {
    var not, changed := a.(reloaded := false), files[SERVICE_UNIT] != ServiceText(texts, direct);
    var service := AfterService(files, direct, texts, a);
    assert AfterService(files, direct, texts, not) == service;
    var socket := AfterSocket(service.files, direct, texts, changed, a);
    assert AfterSocket(service.files, direct, texts, changed, not) == socket;
    assert AfterHook(socket.files, direct, texts, not) == AfterHook(socket.files, direct, texts, a);
  }

  lemma UnitsChangeIff(files: Files, direct: bool, texts: Texts, a: Attempt)
    requires Reconciled(files, direct, texts, a).ok
    ensures var after := Reconciled(files, direct, texts, a).files;
            UnitsChange(files, direct, texts) <==> !(SameAt(files, after, SERVICE_UNIT) && SameAt(files, after, SOCKET_UNIT))
  {
    var changed := files[SERVICE_UNIT] != ServiceText(texts, direct);
    var service := AfterService(files, direct, texts, a);
    var socket := AfterSocket(service.files, direct, texts, changed, a);
    ServiceStepWrites(files, direct, texts, a);
    SocketStepWrites(service.files, direct, texts, changed, a);
    HookStepWritesNoUnit(socket.files, direct, texts, a);
  }

  lemma ServiceStepWrites(files: Files, direct: bool, texts: Texts, a: Attempt)
    requires AfterService(files, direct, texts, a).ok
    ensures var after := AfterService(files, direct, texts, a).files;
            && (SameAt(files, after, SERVICE_UNIT) <==> files[SERVICE_UNIT] == ServiceText(texts, direct))
            && SameAt(files, after, SOCKET_UNIT)
  {
    OwnPathsDiffer();
  }

  lemma SocketStepWrites(files: Files, direct: bool, texts: Texts, changed: bool, a: Attempt)
    requires AfterSocket(files, direct, texts, changed, a).ok
    ensures var after := AfterSocket(files, direct, texts, changed, a).files;
            && (SameAt(files, after, SOCKET_UNIT) <==> (direct ==> SOCKET_UNIT in files && files[SOCKET_UNIT] == texts.socket))
            && SameAt(files, after, SERVICE_UNIT)
  {
    OwnPathsDiffer();
  }

  lemma HookStepWritesNoUnit(files: Files, direct: bool, texts: Texts, a: Attempt)
    ensures var after := AfterHook(files, direct, texts, a).files;
            SameAt(files, after, SERVICE_UNIT) && SameAt(files, after, SOCKET_UNIT)
  {
    OwnPathsDiffer();
  }

  /** Files the program takes for its own, or that are not there where they may be missing. */
  predicate NothingForeign(files: Files, texts: Texts) {
    && SERVICE_UNIT in files && texts.ownService(files[SERVICE_UNIT])
    && (SOCKET_UNIT in files ==> texts.ownSocket(files[SOCKET_UNIT]))
    && (DEPLOY_HOOK in files ==> texts.ownHook(files[DEPLOY_HOOK]))
  }

  /** Where every step works, a live restart fails exactly at a file that is not the program's. */
  lemma OnlyForeignFilesStopARestart(files: Files, direct: bool, texts: Texts, a: Attempt)
    requires a == Attempt(true, true, true, true, true, true, true, true)
    ensures AfterRestart(files, direct, texts, a).ok <==> NothingForeign(files, texts)
  {
    OwnPathsDiffer();
  }

  /** The steps a restart has to take for these files, and that they go well; it takes no others. */
  predicate NeededStepsWork(files: Files, direct: bool, texts: Texts, a: Attempt) {
    var serviceChanges := SERVICE_UNIT in files && files[SERVICE_UNIT] != (if direct then texts.directService else texts.plainService);
    var socketChanges := SOCKET_UNIT !in files || files[SOCKET_UNIT] != texts.socket;
    && (serviceChanges ==> a.serviceWritten)
    && (direct && (serviceChanges || socketChanges) ==> a.socketWritten)
    && (serviceChanges || (direct && socketChanges) ==> a.reloaded)
    && (direct ==> a.hookExecutable && (DEPLOY_HOOK !in files || files[DEPLOY_HOOK] != texts.hook ==> a.hookChanged))
    && (!direct && DEPLOY_HOOK in files ==> a.hookChanged)
  }

  /** A live restart succeeds exactly when no file is foreign and every step these files need works. */
  lemma RestartSucceedsIff(files: Files, direct: bool, texts: Texts, a: Attempt)
    requires a.live
    ensures AfterRestart(files, direct, texts, a).ok
       <==> a.configLoaded && a.started && NothingForeign(files, texts) && NeededStepsWork(files, direct, texts, a)
  {
    OwnPathsDiffer();
  }

  // ---------------------------------------------------------------- what it depends on

  lemma ServiceStepElsewhere(files: Files, direct: bool, texts: Texts, a: Attempt, p: string)
    requires !MayRewrite(p)
    ensures SameAt(files, AfterService(files, direct, texts, a).files, p)
  {
  }

  lemma SocketStepElsewhere(files: Files, direct: bool, texts: Texts, changed: bool, a: Attempt, p: string)
    requires !MayRewrite(p)
    ensures SameAt(files, AfterSocket(files, direct, texts, changed, a).files, p)
  {
  }

  lemma HookStepElsewhere(files: Files, direct: bool, texts: Texts, a: Attempt, p: string)
    requires !MayRewrite(p)
    ensures SameAt(files, AfterHook(files, direct, texts, a).files, p)
  {
  }

  /** A restart touches its three files only. */
  lemma RestartTouchesNothingElse(files: Files, direct: bool, texts: Texts, a: Attempt, p: string)
    requires !MayRewrite(p)
    ensures SameAt(files, AfterRestart(files, direct, texts, a).files, p)
  {
    ServiceStepElsewhere(files, direct, texts, a, p);
    var service := AfterService(files, direct, texts, a);
    if service.ok {
      var changed := files[SERVICE_UNIT] != ServiceText(texts, direct);
      SocketStepElsewhere(service.files, direct, texts, changed, a, p);
      HookStepElsewhere(AfterSocket(service.files, direct, texts, changed, a).files, direct, texts, a, p);
    }
  }

  predicate SameOwnFiles(a: Files, b: Files) {
    SameAt(a, b, SERVICE_UNIT) && SameAt(a, b, SOCKET_UNIT) && SameAt(a, b, DEPLOY_HOOK)
  }

  predicate Alike(one: Step, other: Step) { one.ok == other.ok && SameOwnFiles(one.files, other.files) }

  lemma ServiceStepsAlike(one: Files, other: Files, direct: bool, texts: Texts, a: Attempt)
    requires SameOwnFiles(one, other)
    ensures Alike(AfterService(one, direct, texts, a), AfterService(other, direct, texts, a))
  {
    OwnPathsDiffer();
  }

  lemma SocketStepsAlike(one: Files, other: Files, direct: bool, texts: Texts, changed: bool, a: Attempt)
    requires SameOwnFiles(one, other)
    ensures Alike(AfterSocket(one, direct, texts, changed, a), AfterSocket(other, direct, texts, changed, a))
  {
    OwnPathsDiffer();
  }

  lemma HookStepsAlike(one: Files, other: Files, direct: bool, texts: Texts, a: Attempt)
    requires SameOwnFiles(one, other)
    ensures Alike(AfterHook(one, direct, texts, a), AfterHook(other, direct, texts, a))
  {
    OwnPathsDiffer();
  }

  /** And looks at no others: files that agree on them are treated alike. */
  lemma RestartDependsOnItsFiles(one: Files, other: Files, direct: bool, texts: Texts, a: Attempt)
    requires SameOwnFiles(one, other)
    ensures Alike(AfterRestart(one, direct, texts, a), AfterRestart(other, direct, texts, a))
  {
    ServiceStepsAlike(one, other, direct, texts, a);
    var s, t := AfterService(one, direct, texts, a), AfterService(other, direct, texts, a);
    if s.ok {
      var changed := one[SERVICE_UNIT] != ServiceText(texts, direct);
      SocketStepsAlike(s.files, t.files, direct, texts, changed, a);
      HookStepsAlike(AfterSocket(s.files, direct, texts, changed, a).files, AfterSocket(t.files, direct, texts, changed, a).files,
                     direct, texts, a);
    }
  }

  lemma RestartedAlikeAt(one: Files, other: Files, direct: bool, texts: Texts, a: Attempt, p: string)
    requires SameOwnFiles(one, other) && SameAt(one, other, p)
    ensures SameAt(AfterRestart(one, direct, texts, a).files, AfterRestart(other, direct, texts, a).files, p)
  {
    RestartDependsOnItsFiles(one, other, direct, texts, a);
    if !MayRewrite(p) {
      RestartTouchesNothingElse(one, direct, texts, a, p);
      RestartTouchesNothingElse(other, direct, texts, a, p);
    }
  }
}
