/**
 * GenericWindowManager (plugin/wm/genericwindowmanager.cpp): a backend that
 * reads the active task's application-menu service name and object path
 * from the task manager's model. The AbstractWindowManager it derives from
 * is its `base`; the task model's answers are the handler's parameters.
 */
module GenericWindowManager {
  import opened WindowManager
  import opened Utf8

  class GenericWindowManager {
    const base: AbstractWindowManager

    constructor()
      ensures fresh(base) && base.Snapshot() == Initial()
    {
      base := new AbstractWindowManager();
    }

    /**
     * onActiveWindowChanged, run on every change of the active task, the
     * activity, the virtual desktop or the task count.
     */
    method OnActiveWindowChanged(objectPath: seq<byte>, serviceName: seq<byte>)
      modifies base
      ensures base.Snapshot() == TaskChanged(old(base.Snapshot()), objectPath, serviceName)
    {
      if objectPath != [] && serviceName != [] {
        base.SetMenuAvailable(true);
        base.Emit(ApplicationMenuChanged(serviceName, objectPath));
        base.SetVisible(true);
        base.Emit(ModelNeedsUpdate);
      } else {
        base.SetMenuAvailable(false);
        base.SetVisible(false);
      }
    }
  }
}
