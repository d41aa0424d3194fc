/** The constant text of the cloud-init documents, kept apart so that proofs can treat it as a name. */
module CloudText {

  /** The document up to the network section. */
  function Head(): string {
    "#cloud-config\n" +
    "output: {all: '| tee /dev/hvc0'}\n"
  }

  /** The network-config document, in lines: DHCP on all interfaces. */
  function NetworkLines(): seq<string> {
    ["version: 2",
     "ethernets:",
     "  all:",
     "    match:",
     "      name: \"*\"",
     "    dhcp4: true"]
  }

  /** From the boot commands to the start of the file list. */
  function Boot(): string {
    "bootcmd:\n" +
    "  - [sh, -c, \"echo $(date) bootcmd started > /dev/hvc0\"]\n" +
    "  - [ modprobe, virtio_console ]\n" +
    "  - [ modprobe, virtiofs ]\n" +
    "write_files:\n"
  }

  /** The preseed up to the line with the bridge address, in lines. */
  function TopLines(): seq<string> {
    ["config:",
     "  core.https_address: \"[::]:8443\"",
     "networks:",
     "  - name: incusbr0",
     "    type: bridge",
     "    config:"]
  }

  function AddressKey(): string {
    "      ipv4.address: "
  }

  /** The storage pool's device, as the preseed names it. */
  function PoolSource(): string {
    "/dev/vdb"
  }

  /** The preseed between the line with the bridge address and the one with the pool's device. */
  function PoolLines(): seq<string> {
    ["      ipv4.nat: \"true\"",
     "      ipv6.address: none",
     "storage_pools:",
     "  - name: default",
     "    driver: btrfs",
     "    config:"]
  }

  function SourceKey(): string {
    "      source: "
  }

  /** The preseed after the line with the pool's device. */
  function ProfileLines(): seq<string> {
    ["profiles:",
     "  - name: default",
     "    devices:",
     "      eth0:",
     "        type: nic",
     "        network: incusbr0",
     "        name: eth0"]
  }

  /** The first lines of the run section. */
  function RunHead(): string {
    "runcmd:\n" + RunLog()
  }

  function RunLog(): string {
    "  - [sh, -c, \"echo $(date) [malleus] runcmd started > /dev/hvc0\"]\n" +
    "  - [sh, -c, \"dmesg | grep -iE 'virtio|eth0|enp' > /dev/hvc0\"]\n"
  }

  /** What the two background scripts share. */
  function LoopHead(): string {
    "  - [sh, -c, \"(while true; do "
  }

  /** The script that reports the address over the state share, up to its tag argument. */
  function StateScript(): string {
    "TAG=" + StateBody()
  }

  /** The line a script of the guest writes to the serial log for an address. */
  function ReportLine(address: string, means: string): string {
    "Reported IP " + (address + (" via " + means))
  }

  /** The command that does so, with the variable that holds the address. */
  function ReportCommand(means: string): string {
    "echo \\\"" + ReportLine("$IP", means) + "\\\""
  }

  function StateBody(): string {
    StateLoop() + ReportCommand("virtio-fs") + StateLoopEnd()
  }

  function StateLoop(): string {
    "\\\"$1\\\"; DIR=\\\"/mnt/mac/$TAG\\\"; echo \\\"$(date) [malleus] checking network " +
    "and mounting $TAG\\\" > /dev/hvc0; mkdir -p \\\"$DIR\\\"; if ! mountpoint -q \\\"$DIR\\\"; " +
    "then mount -t virtiofs \\\"$TAG\\\" \\\"$DIR\\\" || echo \\\"$(date) [malleus] virtio-fs " +
    "mount failed\\\" > /dev/hvc0; fi; if [ -d \\\"$DIR\\\" ]; then IP=$(ip -4 addr show " +
    "| grep 'inet ' | grep -v '127.0.0.1' | head -n 1 | awk '{print $2}' | cut -d/ -f1); " +
    "if [ -n \\\"$IP\\\" ]; then echo \\\"$IP\\\" > \\\"$DIR\\\"/guest-ip; "
  }

  function StateLoopEnd(): string {
    " | tee -a \\\"$DIR\\\"/guest-ip.log > /dev/hvc0; break; fi; " +
    "fi; sleep 2; done) &\", \"\", \""
  }

  function StateScriptEnd(): string {
    "\"]\n"
  }

  /** The script that reports the address over vsock. */
  function VsockScript(): string {
    "IP=" + VsockBody()
  }

  function VsockBody(): string {
    VsockLoop() + ReportCommand("vsock") + VsockLoopEnd()
  }

  function VsockLoop(): string {
    "$(ip -4 addr show | grep 'inet ' | grep -v '127.0.0.1' | head -n 1 | awk '{print " +
    "$2}' | cut -d/ -f1); if [ -n \\\"$IP\\\" ]; then echo \\\"[malleus] Network is UP with " +
    "IP $IP\\\" > /dev/hvc0; ping -c 1 192.168.64.1 > /dev/hvc0 2>&1 || echo \\\"[malleus] " +
    "Host ping failed\\\" > /dev/hvc0; if command -v socat >/dev/null 2>&1; then "
  }

  function VsockLoopEnd(): string {
    " > /dev/hvc0; echo \\\"$IP\\\" | socat - VSOCK-LISTEN:5,reuseaddr; " +
    "break; fi; fi; sleep 2; done) &\", \"\", \"\"]\n"
  }

  /** Installing Incus. */
  function InstallPackages(): string {
    "  - [mkdir, -p, /etc/apt/keyrings]\n" +
    "  - [sh, -c, \"curl -fsSL https://pkgs.zabbly.com/key.asc -o /etc/apt/keyrings/zabbly.asc\"]\n" +
    "  - [sh, -c, \"echo 'deb [signed-by=/etc/apt/keyrings/zabbly.asc] https://pkgs.zabbly.com/incus/stable /' " +
    "> /etc/apt/sources.list.d/zabbly-incus-stable.list\"]\n" +
    "  - [apt-get, update]\n" +
    "  - [apt-get, install, -y, incus, socat]\n"
  }

  /** Initialising Incus from the preseed. */
  function PreseedCommand(): string {
    "  - [sh, -c, \"incus admin init --preseed < " + "/var/lib/malleus/preseed.yaml" + "\"]\n"
  }

  /** Trusting the client. */
  function TrustCommand(): string {
    "  - [incus, config, trust, add-certificate, " + "/var/lib/malleus/client.crt" +
    ", --name, malleus-client, --type, client]\n"
  }

  /** Installing Incus, initialising it and trusting the client. */
  function Install(): string {
    InstallPackages() + PreseedCommand() + TrustCommand()
  }
}
