/** The frame's activity (`MainActivity`): keeps the screen on while the frame is awake,
    puts it to sleep after a period without activity, wakes it on motion during the wake
    schedule, and forwards remote-control keys to the event bus. The wall clock and the
    hour of day are parameters. */
module Activity {
  import opened Model
  import SlideshowScreen
  import AppScreen

  const SleepTimeoutSeconds: int := 15 * 60

  /** The key codes forwarded as remote key presses. */
  const RemoteKeys: seq<int> := [131, 132, 19, 21, 22, 20, 4, 134, 23, 24, 25]

  /** `timeInMillis / 1000` on a Kotlin `Long`: the quotient truncated toward zero, so
      a negative clock rounds up rather than down. */
  function EpochSeconds(millis: int): (s: int)
    ensures 0 <= millis ==> 1000 * s <= millis < 1000 * s + 1000
    ensures millis < 0 ==> 1000 * s - 1000 < millis <= 1000 * s
  {
    if millis >= 0 then millis / 1000 else -((-millis) / 1000)
  }

  /** The frame may be awake from 07:00 until 21:59: hour of day 7 to 21 inclusive. */
  function IsInWakeSchedule(hour: int): (r: bool)
    ensures r <==> 7 <= hour <= 21
  {
    !(hour < 7 || hour > 21)
  }

  /** The frame has been idle for at least the timeout. */
  predicate TimedOut(nowSeconds: int, lastActivity: int) {
    nowSeconds - lastActivity >= SleepTimeoutSeconds
  }

  /** Every key the view models act on is forwarded: the slideshow's left, right and
      center, and the app's back. */
  lemma RemoteKeysReachViewModels()
    ensures SlideshowScreen.KeycodeDpadLeft in RemoteKeys
    ensures SlideshowScreen.KeycodeDpadRight in RemoteKeys
    ensures SlideshowScreen.KeycodeDpadCenter in RemoteKeys
    ensures AppScreen.KeycodeBack in RemoteKeys
  {
  }

  class MainActivity {
    /** Epoch seconds of the last key press or motion. */
    var lastActivity: int
    var isAwake: bool
    /** The window's keep-screen-on flag. */
    var keepScreenOn: bool
    /** How many sleep-check loops have been launched. */
    var sleepChecksLaunched: nat

    /** The screen is held on exactly while the frame is awake. */
    ghost predicate Valid()
      reads this
    {
      keepScreenOn == isAwake
    }

    /** A new activity: asleep, with the clock at construction as its last activity. */
    constructor (nowMillis: int)
      ensures Valid()
      ensures lastActivity == EpochSeconds(nowMillis)
      ensures !isAwake && sleepChecksLaunched == 0
    {
      lastActivity := EpochSeconds(nowMillis);
      isAwake := false;
      keepScreenOn := false;
      sleepChecksLaunched := 0;
    }

    /** `wake()`: when asleep, holds the screen on, becomes awake and launches a sleep
        check; when awake already, does nothing. */
    method Wake()
      requires Valid()
      modifies this
      ensures Valid() && isAwake
      ensures sleepChecksLaunched == old(sleepChecksLaunched) + (if old(isAwake) then 0 else 1)
      ensures lastActivity == old(lastActivity)
    {
      if isAwake {
        return;
      }
      keepScreenOn := true;
      isAwake := true;
      sleepChecksLaunched := sleepChecksLaunched + 1;
    }

    /** `sleep()`: when awake, becomes asleep and releases the screen; when asleep
        already, does nothing. */
    method Sleep()
      requires Valid()
      modifies this
      ensures Valid() && !isAwake
      ensures sleepChecksLaunched == old(sleepChecksLaunched)
      ensures lastActivity == old(lastActivity)
    {
      if !isAwake {
        return;
      }
      isAwake := false;
      keepScreenOn := false;
    }

    /** `resetInactivityTimer()`. */
    method ResetInactivityTimer(nowMillis: int)
      modifies this
      ensures lastActivity == EpochSeconds(nowMillis)
      ensures isAwake == old(isAwake) && keepScreenOn == old(keepScreenOn)
      ensures sleepChecksLaunched == old(sleepChecksLaunched)
    {
      lastActivity := EpochSeconds(nowMillis);
    }

    /** `sleepCheck()`, run against the clock readings `clockMillis` taken at its
        successive checks (one per check interval). While awake it checks once per
        reading; at the first reading at least the timeout past the last activity it
        puts the frame to sleep and stops. It also stops when the readings run out. */
    method SleepCheck(clockMillis: seq<int>) returns (checks: nat)
      requires Valid()
      modifies this
      ensures Valid()
      ensures checks <= |clockMillis|
      ensures !old(isAwake) ==> checks == 0 && !isAwake
      ensures isAwake ==>
        && checks == |clockMillis|
        && forall j :: 0 <= j < checks ==> !TimedOut(EpochSeconds(clockMillis[j]), lastActivity)
      ensures old(isAwake) && !isAwake ==>
        && 0 < checks
        && TimedOut(EpochSeconds(clockMillis[checks - 1]), lastActivity)
        && forall j :: 0 <= j < checks - 1 ==> !TimedOut(EpochSeconds(clockMillis[j]), lastActivity)
      ensures lastActivity == old(lastActivity) && sleepChecksLaunched == old(sleepChecksLaunched)
    {
      checks := 0;
      while isAwake && checks < |clockMillis|
        invariant Valid()
        invariant checks <= |clockMillis|
        invariant lastActivity == old(lastActivity) && sleepChecksLaunched == old(sleepChecksLaunched)
        invariant !old(isAwake) ==> checks == 0 && !isAwake
        invariant isAwake ==>
          forall j :: 0 <= j < checks ==> !TimedOut(EpochSeconds(clockMillis[j]), lastActivity)
        invariant old(isAwake) && !isAwake ==>
          && 0 < checks
          && TimedOut(EpochSeconds(clockMillis[checks - 1]), lastActivity)
          && forall j :: 0 <= j < checks - 1 ==> !TimedOut(EpochSeconds(clockMillis[j]), lastActivity)
        decreases |clockMillis| - checks
      {
        var elapsedSeconds := EpochSeconds(clockMillis[checks]) - lastActivity;
        if elapsedSeconds >= SleepTimeoutSeconds {
          Sleep();
        }
        checks := checks + 1;
      }
    }

    /** `onKeyUp`: every key resets the inactivity timer; a remote key is posted to the
        event bus and reported handled, any other key gets the platform's answer
        `superResult`. A key press does not wake a sleeping frame. */
    method OnKeyUp(keyCode: int, nowMillis: int, superResult: bool, log: seq<Event>)
      returns (handled: bool, log': seq<Event>)
      modifies this
      ensures lastActivity == EpochSeconds(nowMillis)
      ensures handled == (keyCode in RemoteKeys || superResult)
      ensures log' == log + (if keyCode in RemoteKeys then [RemoteKeyPressEvent(keyCode)] else [])
      ensures isAwake == old(isAwake) && keepScreenOn == old(keepScreenOn)
      ensures sleepChecksLaunched == old(sleepChecksLaunched)
    {
      ResetInactivityTimer(nowMillis);
      if keyCode in RemoteKeys {
        log' := log + [RemoteKeyPressEvent(keyCode)];
        handled := true;
        return;
      }
      log' := log;
      handled := superResult;
    }

    /** `handleMotionDetected`: motion resets the inactivity timer, and wakes the frame
        when the hour is in the wake schedule. */
    method HandleMotionDetected(hour: int, nowMillis: int)
      requires Valid()
      modifies this
      ensures Valid()
      ensures lastActivity == EpochSeconds(nowMillis)
      ensures isAwake == (old(isAwake) || IsInWakeSchedule(hour))
      ensures sleepChecksLaunched == old(sleepChecksLaunched)
        + (if !old(isAwake) && IsInWakeSchedule(hour) then 1 else 0)
    {
      ResetInactivityTimer(nowMillis);
      if IsInWakeSchedule(hour) {
        Wake();
      }
    }

    /** The wake-related part of `onCreate`: wakes when the hour is in the wake
        schedule, then launches a sleep check of its own. */
    method OnCreate(hour: int)
      requires Valid()
      modifies this
      ensures Valid()
      ensures isAwake == (old(isAwake) || IsInWakeSchedule(hour))
      ensures sleepChecksLaunched == old(sleepChecksLaunched) + 1
        + (if !old(isAwake) && IsInWakeSchedule(hour) then 1 else 0)
      ensures lastActivity == old(lastActivity)
    {
      if IsInWakeSchedule(hour) {
        Wake();
      }
      sleepChecksLaunched := sleepChecksLaunched + 1;
    }

    /** `onResume`: wakes the frame whatever the hour. */
    method OnResume()
      requires Valid()
      modifies this
      ensures Valid() && isAwake
      ensures sleepChecksLaunched == old(sleepChecksLaunched) + (if old(isAwake) then 0 else 1)
      ensures lastActivity == old(lastActivity)
    {
      Wake();
    }
  }
}
