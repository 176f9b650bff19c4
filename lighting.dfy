/**
  The global light controller: four flags describing the state of the simulator and of the
  application, and a push of "should the lights be on" to the USB logic after every change
  of a flag. The USB logic is reduced to the one property the controller writes.
 */
module Lighting {

  /** The part of the USB logic the controller drives: whether the panel lights are enabled. */
  class UsbLogic {
    var lightsEnabled: bool

    constructor(lightsEnabled: bool)
      ensures this.lightsEnabled == lightsEnabled
    {
      this.lightsEnabled := lightsEnabled;
    }
  }

  /** The lights may be on only while a simulator is connected, it is not in its main menu,
      the configuration is not being read and the application is not exiting. */
  function LightsShouldBeOn(simulatorInMainMenu: bool, readingConfiguration: bool,
                            applicationExiting: bool, simulatorConnected: bool): (on: bool)
    ensures on ==> simulatorConnected
    ensures on ==> !simulatorInMainMenu && !readingConfiguration && !applicationExiting
    ensures simulatorConnected && !simulatorInMainMenu && !readingConfiguration && !applicationExiting ==> on
  {
    !simulatorInMainMenu && !readingConfiguration && !applicationExiting && simulatorConnected
  }

  class GlobalLightController {
    const usbLogic: UsbLogic
    var simulatorInMainMenu: bool
    var readingConfiguration: bool
    var applicationExiting: bool
    var simulatorConnected: bool

    /** What the flags currently ask of the lights. */
    predicate ShouldBeOn()
      reads this
    {
      LightsShouldBeOn(simulatorInMainMenu, readingConfiguration, applicationExiting, simulatorConnected)
    }

    /** The USB logic shows what the flags ask for. */
    predicate Pushed()
      reads this, usbLogic
    {
      usbLogic.lightsEnabled == ShouldBeOn()
    }

    /** All flags start false; nothing is written to the USB logic yet. */
    constructor(usbLogic: UsbLogic)
      ensures this.usbLogic == usbLogic
      ensures !simulatorInMainMenu && !readingConfiguration && !applicationExiting && !simulatorConnected
      ensures usbLogic.lightsEnabled == old(usbLogic.lightsEnabled)
    {
      this.usbLogic := usbLogic;
      simulatorInMainMenu := false;
      readingConfiguration := false;
      applicationExiting := false;
      simulatorConnected := false;
    }

    /** `Check`: writes what the flags ask for to the USB logic; the flags stay as they are. */
    method Check()
      modifies usbLogic
      ensures Pushed()
    {
      var lightsShouldBeOn := !simulatorInMainMenu && !readingConfiguration && !applicationExiting && simulatorConnected;
      usbLogic.lightsEnabled := lightsShouldBeOn;
    }

    /** The `SimulatorInMainMenu` setter: stores the flag, keeps the other three, and pushes. */
    method SetSimulatorInMainMenu(value: bool)
      modifies this, usbLogic
      ensures simulatorInMainMenu == value
      ensures readingConfiguration == old(readingConfiguration) && applicationExiting == old(applicationExiting)
      ensures simulatorConnected == old(simulatorConnected)
      ensures Pushed()
      ensures value ==> !usbLogic.lightsEnabled
      ensures value == old(simulatorInMainMenu) ==> usbLogic.lightsEnabled == old(ShouldBeOn())
    {
      simulatorInMainMenu := value;
      Check();
    }

    /** The `ReadingConfiguration` setter: stores the flag, keeps the other three, and pushes. */
    method SetReadingConfiguration(value: bool)
      modifies this, usbLogic
      ensures readingConfiguration == value
      ensures simulatorInMainMenu == old(simulatorInMainMenu) && applicationExiting == old(applicationExiting)
      ensures simulatorConnected == old(simulatorConnected)
      ensures Pushed()
      ensures value ==> !usbLogic.lightsEnabled
      ensures value == old(readingConfiguration) ==> usbLogic.lightsEnabled == old(ShouldBeOn())
    {
      readingConfiguration := value;
      Check();
    }

    /** The `ApplicationExiting` setter: stores the flag, keeps the other three, and pushes. */
    method SetApplicationExiting(value: bool)
      modifies this, usbLogic
      ensures applicationExiting == value
      ensures simulatorInMainMenu == old(simulatorInMainMenu) && readingConfiguration == old(readingConfiguration)
      ensures simulatorConnected == old(simulatorConnected)
      ensures Pushed()
      ensures value ==> !usbLogic.lightsEnabled
      ensures value == old(applicationExiting) ==> usbLogic.lightsEnabled == old(ShouldBeOn())
    {
      applicationExiting := value;
      Check();
    }

    /** The `SimulatorConnected` setter: stores the flag, keeps the other three, and pushes. */
    method SetSimulatorConnected(value: bool)
      modifies this, usbLogic
      ensures simulatorConnected == value
      ensures simulatorInMainMenu == old(simulatorInMainMenu) && readingConfiguration == old(readingConfiguration)
      ensures applicationExiting == old(applicationExiting)
      ensures Pushed()
      ensures !value ==> !usbLogic.lightsEnabled
      ensures value == old(simulatorConnected) ==> usbLogic.lightsEnabled == old(ShouldBeOn())
    {
      simulatorConnected := value;
      Check();
    }
  }
}
